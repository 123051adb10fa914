/**
  WebAuthn credentials of src/models/Passkey.js: the passkeys table keyed by credential id,
  the transports list kept as a JSON array of strings, the owner-scoped delete, the counter
  update, and the one-slot challenge each user row carries.
*/
module PasskeyModel {
  import opened Common
  import opened Schema
  import Sql

  // ---------------------------------------------------------------------------------------
  // The transports column: JSON.stringify of an array of strings, and JSON.parse back
  // ---------------------------------------------------------------------------------------

  /** A transport name `JSON.stringify` writes without escapes: no quote, backslash or control. */
  predicate PlainName(t: string) {
    forall i :: 0 <= i < |t| ==> t[i] != '"' && t[i] != '\\' && t[i] >= ' '
  }

  /**
    The array elements, each in quotes and followed by a comma unless it is the last. The
    concatenations are grouped from the right, the order the decoder reads them in.
  */
  function JoinItems(ts: seq<string>): string {
    if ts == [] then ""
    else ['"'] + (ts[0] + (['"'] + (if |ts| == 1 then "" else [','] + JoinItems(ts[1..]))))
  }

  /** `JSON.stringify(transports)` for an array of plain names. */
  function EncodeTransports(ts: seq<string>): (s: string)
    ensures |s| >= 2 && s[0] == '[' && s[|s| - 1] == ']'
  {
    ['['] + JoinItems(ts) + [']']
  }

  /** The longest prefix of `s` without a quote: the text of a string literal. */
  function TakeName(s: string): (t: string)
    ensures |t| <= |s| && t == s[..|t|]
    ensures forall i :: 0 <= i < |t| ==> t[i] != '"'
    ensures |t| < |s| ==> s[|t|] == '"'
  {
    if s == [] || s[0] == '"' then [] else [s[0]] + TakeName(s[1..])
  }

  /** One or more quoted names separated by commas; `None` for anything else. */
  function DecodeItems(s: string): (r: Option<seq<string>>)
    ensures r.Some? ==> r.value != []
    decreases |s|
  {
    if s == [] || s[0] != '"' then None
    else
      var body := s[1..];
      var name := TakeName(body);
      var after := body[|name|..];
      if after == [] then None
      else
        var rest := after[1..];
        if rest == [] then Some([name])
        else if rest[0] != ',' then None
        else
          match DecodeItems(rest[1..])
          case None => None
          case Some(more) => Some([name] + more)
  }

  /** `JSON.parse` of a stored transports value, restricted to arrays of plain strings. */
  function DecodeTransports(s: string): Option<seq<string>> {
    if |s| >= 2 && s[0] == '[' && s[|s| - 1] == ']' then
      var body := s[1..|s| - 1];
      if body == [] then Some([]) else DecodeItems(body)
    else None
  }

  /** The head and the tail of a one-character prefix. */
  lemma Uncons(c: char, x: string)
    ensures ([c] + x)[0] == c && ([c] + x)[1..] == x
  {
  }

  /** Dropping the first `|a|` characters of `a + b` leaves `b`. */
  lemma DropPrefix(a: string, b: string)
    ensures (a + b)[|a|..] == b
  {
  }

  /** A plain name followed by a quote is read up to that quote. */
  lemma {:induction false} TakeNameOfQuoted(t: string, tail: string)
    requires PlainName(t)
    ensures TakeName(t + (['"'] + tail)) == t
    decreases |t|
  {
    var s := t + (['"'] + tail);
    if t == [] {
      assert s == ['"'] + tail;
    } else {
      assert s[0] == t[0] && s[1..] == t[1..] + (['"'] + tail);
      TakeNameOfQuoted(t[1..], tail);
      assert [t[0]] + t[1..] == t;
    }
  }

  /** The decoder on a last element: a quoted plain name and nothing after it. */
  lemma DecodeLastItem(t: string)
    requires PlainName(t)
    ensures DecodeItems(['"'] + (t + (['"'] + ""))) == Some([t])
  {
    Uncons('"', t + (['"'] + ""));
    TakeNameOfQuoted(t, "");
    DropPrefix(t, ['"'] + "");
    Uncons('"', "");
  }

  /** The decoder on an element followed by a comma: that name, then what the rest decodes to. */
  lemma DecodeItemThenComma(t: string, rest: string)
    requires PlainName(t) && DecodeItems(rest).Some?
    ensures DecodeItems(['"'] + (t + (['"'] + ([','] + rest)))) == Some([t] + DecodeItems(rest).value)
  {
    Uncons('"', t + (['"'] + ([','] + rest)));
    TakeNameOfQuoted(t, [','] + rest);
    DropPrefix(t, ['"'] + ([','] + rest));
    Uncons('"', [','] + rest);
    Uncons(',', rest);
  }

  /** The decoder reads the first element and then what the rest of the list decodes to. */
  lemma DecodeJoinStep(ts: seq<string>)
    requires |ts| > 1 && PlainName(ts[0]) && DecodeItems(JoinItems(ts[1..])) == Some(ts[1..])
    ensures DecodeItems(JoinItems(ts)) == Some(ts)
  {
    var t, rest := ts[0], JoinItems(ts[1..]);
    assert JoinItems(ts) == ['"'] + (t + (['"'] + ([','] + rest)));
    DecodeItemThenComma(t, rest);
    assert [t] + ts[1..] == ts;
  }

  /** The elements written by `JoinItems` decode to the same list, by induction on its length. */
  lemma {:induction false} DecodeJoinItems(ts: seq<string>)
    requires ts != [] && forall i :: 0 <= i < |ts| ==> PlainName(ts[i])
    ensures DecodeItems(JoinItems(ts)) == Some(ts)
    decreases |ts|
  {
    if |ts| == 1 {
      assert JoinItems(ts) == ['"'] + (ts[0] + (['"'] + ""));
      DecodeLastItem(ts[0]);
      assert ts == [ts[0]];
    } else {
      DecodeJoinItems(ts[1..]);
      DecodeJoinStep(ts);
    }
  }

  /** Reading back what `create` stored gives the same list of transports. */
  lemma DecodeEncodeTransports(ts: seq<string>)
    requires forall i :: 0 <= i < |ts| ==> PlainName(ts[i])
    ensures DecodeTransports(EncodeTransports(ts)) == Some(ts)
  {
    var s := EncodeTransports(ts);
    assert s[1..|s| - 1] == JoinItems(ts);
    if ts != [] {
      DecodeJoinItems(ts);
    }
  }

  /**
    The readers' `if (pk.transports) pk.transports = JSON.parse(pk.transports)`: a NULL or empty
    column is left as it is (`None`), a stored array is decoded.
  */
  function ReadTransports(column: Option<string>): (r: Option<seq<string>>)
    ensures column.None? || column.value == "" ==> r.None?
    ensures column.Some? && column.value != "" ==> r == DecodeTransports(column.value)
  {
    if column.Some? && column.value != "" then DecodeTransports(column.value) else None
  }

  // ---------------------------------------------------------------------------------------
  // create / find
  // ---------------------------------------------------------------------------------------

  /**
    The row `create` inserts: `counter` defaults to 0 when the argument is left out, and
    `transports` is stored encoded, or NULL when it is not given.
  */
  function NewPasskeyRow(id: Id, userId: Id, publicKey: string, counter: Option<int>,
                         deviceName: Option<string>, transports: Option<seq<string>>,
                         now: Timestamp): (r: PasskeyRow)
    ensures r.id == id && r.userId == userId && r.publicKey == publicKey && r.deviceName == deviceName
    ensures r.counter == if counter.None? then 0 else counter.value
    ensures r.transports.None? <==> transports.None?
    ensures r.createdAt == now && r.lastUsedAt.None?
  {
    PasskeyRow(id, userId, publicKey, if counter.None? then 0 else counter.value, deviceName,
      if transports.None? then None else Some(EncodeTransports(transports.value)), now, None)
  }

  /** What `create` stored reads back, through the readers' decoding, as the list it was given. */
  lemma NewPasskeyTransportsReadBack(id: Id, userId: Id, publicKey: string, counter: Option<int>,
                                     deviceName: Option<string>, transports: Option<seq<string>>,
                                     now: Timestamp)
    requires transports.Some? ==> forall i :: 0 <= i < |transports.value| ==> PlainName(transports.value[i])
    ensures ReadTransports(
      NewPasskeyRow(id, userId, publicKey, counter, deviceName, transports, now).transports)
      == transports
  {
    if transports.Some? {
      DecodeEncodeTransports(transports.value);
    }
  }

  /**
    `Passkey.create`: inserts the row under the next id and returns it; a credential id that is
    already stored violates its UNIQUE constraint and nothing is inserted.
  */
  method Create(db: Database, userId: Id, credentialId: string, publicKey: string,
                counter: Option<int>, deviceName: Option<string>,
                transports: Option<seq<string>>, now: Timestamp) returns (r: Result<Id>)
    modifies db`passkeys, db`passkeySeq
    ensures r.ConstraintViolation? <==> credentialId in old(db.passkeys)
    ensures r.Ok? ==> (r.value == old(db.passkeySeq) && db.passkeySeq == old(db.passkeySeq) + 1
      && db.passkeys == old(db.passkeys)[credentialId :=
        NewPasskeyRow(r.value, userId, publicKey, counter, deviceName, transports, now)])
    ensures r.ConstraintViolation? ==> unchanged(db`passkeys, db`passkeySeq)
    ensures old(db.Valid()) ==> db.Valid()
    ensures old(db.Valid()) && r.Ok? ==> forall c :: c in old(db.passkeys) ==> old(db.passkeys)[c].id != r.value
  {
    if credentialId in db.passkeys {
      return ConstraintViolation;
    }
    var row := NewPasskeyRow(db.passkeySeq, userId, publicKey, counter, deviceName, transports, now);
    r := Ok(db.passkeySeq);
    db.passkeys := db.passkeys[credentialId := row];
    db.passkeySeq := db.passkeySeq + 1;
  }

  /** A passkey row as the find methods return it: `transports` decoded. */
  datatype PasskeyView = PasskeyView(credentialId: string, row: PasskeyRow,
                                     transports: Option<seq<string>>)

  function View(passkeys: map<string, PasskeyRow>, c: string): (v: PasskeyView)
    requires c in passkeys
    ensures v.credentialId == c && v.row == passkeys[c]
    ensures v.transports == ReadTransports(passkeys[c].transports)
  {
    PasskeyView(c, passkeys[c], ReadTransports(passkeys[c].transports))
  }

  /** `Passkey.findByCredentialId`: the row with this credential id, if any. */
  function FindByCredentialId(passkeys: map<string, PasskeyRow>, credentialId: string)
    : (r: Option<PasskeyView>)
    ensures r.Some? <==> credentialId in passkeys
    ensures r.Some? ==> r.value == View(passkeys, credentialId)
  {
    if credentialId in passkeys then Some(View(passkeys, credentialId)) else None
  }

  /** The credentials registered to this user. */
  function UserCredentials(passkeys: map<string, PasskeyRow>, userId: Id): (s: set<string>)
    ensures forall c :: c in s <==> c in passkeys && passkeys[c].userId == userId
  {
    set c | c in passkeys && passkeys[c].userId == userId
  }

  /** The ORDER BY key `created_at DESC`: newer rows compare smaller. */
  function NewestFirstKey(passkeys: map<string, PasskeyRow>): string -> seq<Sql.Value> {
    (c: string) => if c in passkeys then [Sql.Int(-passkeys[c].createdAt)] else []
  }

  /** Credentials sorted by `NewestFirstKey` are in descending `created_at` order. */
  lemma NewestFirst(passkeys: map<string, PasskeyRow>, r: seq<string>)
    requires forall i :: 0 <= i < |r| ==> r[i] in passkeys
    requires Sql.SortedBy(r, NewestFirstKey(passkeys))
    ensures forall i, j :: 0 <= i < j < |r| ==> passkeys[r[i]].createdAt >= passkeys[r[j]].createdAt
  {
    forall i, j | 0 <= i < j < |r|
      ensures passkeys[r[i]].createdAt >= passkeys[r[j]].createdAt
    {
      var a, b := r[i], r[j];
      assert NewestFirstKey(passkeys)(a) == [Sql.Int(-passkeys[a].createdAt)];
      assert NewestFirstKey(passkeys)(b) == [Sql.Int(-passkeys[b].createdAt)];
      Sql.IntKeyOrder(-passkeys[a].createdAt, -passkeys[b].createdAt);
    }
  }

  /** `findByUserId` as the credential ids of the rows it returns, newest first. */
  ghost function UserCredentialIds(passkeys: map<string, PasskeyRow>, userId: Id): (r: seq<string>)
    ensures Distinct(r) && forall i :: 0 <= i < |r| ==> r[i] in passkeys
    ensures forall c :: c in r <==> c in UserCredentials(passkeys, userId)
    ensures forall i, j :: 0 <= i < j < |r| ==> passkeys[r[i]].createdAt >= passkeys[r[j]].createdAt
  {
    var r := Sql.OrderBy(UserCredentials(passkeys, userId), NewestFirstKey(passkeys));
    NewestFirst(passkeys, r);
    r
  }

  /** `Passkey.findByUserId`: the user's passkeys, newest first, transports decoded. */
  ghost function FindByUserId(passkeys: map<string, PasskeyRow>, userId: Id): (r: seq<PasskeyView>)
    ensures var ids := UserCredentialIds(passkeys, userId);
      |r| == |ids| && forall i :: 0 <= i < |r| ==> r[i] == View(passkeys, ids[i])
  {
    var ids := UserCredentialIds(passkeys, userId);
    seq(|ids|, i requires 0 <= i < |ids| => View(passkeys, ids[i]))
  }

  /**
    `findByUserId` lists each of the user's passkeys exactly once, no other user's, newest
    first.
  */
  lemma FindByUserIdListsOwnPasskeys(passkeys: map<string, PasskeyRow>, userId: Id, c: string)
    ensures var r := FindByUserId(passkeys, userId);
      && ((exists i :: 0 <= i < |r| && r[i].credentialId == c)
          <==> c in passkeys && passkeys[c].userId == userId)
      && (forall i :: 0 <= i < |r| ==> r[i].row.userId == userId)
      && (forall i, j :: 0 <= i < j < |r| ==> r[i].credentialId != r[j].credentialId)
      && (forall i, j :: 0 <= i < j < |r| ==> r[i].row.createdAt >= r[j].row.createdAt)
  {
    var r := FindByUserId(passkeys, userId);
    var ids := UserCredentialIds(passkeys, userId);
    assert forall i :: 0 <= i < |r| ==> r[i].credentialId == ids[i] && ids[i] in UserCredentials(passkeys, userId);
    if c in passkeys && passkeys[c].userId == userId {
      var i :| 0 <= i < |ids| && ids[i] == c;
      assert r[i].credentialId == c;
    }
  }

  // ---------------------------------------------------------------------------------------
  // updateCounter / delete
  // ---------------------------------------------------------------------------------------

  /** `updateCounter` on the table: counter and last_used_at of that credential's row only. */
  function UpdateCounterRows(passkeys: map<string, PasskeyRow>, credentialId: string,
                             newCounter: int, now: Timestamp): (r: map<string, PasskeyRow>)
    ensures r.Keys == passkeys.Keys
    ensures credentialId in passkeys ==>
      r[credentialId] == passkeys[credentialId].(counter := newCounter, lastUsedAt := Some(now))
    ensures forall c :: c in passkeys && c != credentialId ==> r[c] == passkeys[c]
  {
    if credentialId in passkeys then
      passkeys[credentialId := passkeys[credentialId].(counter := newCounter, lastUsedAt := Some(now))]
    else passkeys
  }

  method UpdateCounter(db: Database, credentialId: string, newCounter: int, now: Timestamp)
    modifies db`passkeys
    ensures db.passkeys == UpdateCounterRows(old(db.passkeys), credentialId, newCounter, now)
  {
    if credentialId in db.passkeys {
      db.passkeys := db.passkeys[credentialId :=
        db.passkeys[credentialId].(counter := newCounter, lastUsedAt := Some(now))];
    }
  }

  /**
    After `updateCounter`, looking the credential up reports the new counter and use time and
    the same owner and key; every other credential reads as before.
  */
  lemma UpdateCounterIsSeen(passkeys: map<string, PasskeyRow>, credentialId: string,
                            newCounter: int, now: Timestamp, other: string)
    ensures var after := UpdateCounterRows(passkeys, credentialId, newCounter, now);
      var v := FindByCredentialId(after, credentialId);
      && (v.Some? <==> credentialId in passkeys)
      && (v.Some? ==>
          && v.value.row.counter == newCounter && v.value.row.lastUsedAt == Some(now)
          && v.value.row.userId == passkeys[credentialId].userId
          && v.value.row.publicKey == passkeys[credentialId].publicKey)
      && (other != credentialId ==>
          FindByCredentialId(after, other) == FindByCredentialId(passkeys, other))
  {
  }

  /** `delete(id, userId)` on the table: the rows whose id AND owner both match go. */
  function DeleteRows(passkeys: map<string, PasskeyRow>, id: Id, userId: Id)
    : (r: map<string, PasskeyRow>)
    ensures forall c :: c in r <==>
      c in passkeys && !(passkeys[c].id == id && passkeys[c].userId == userId)
    ensures forall c :: c in r ==> r[c] == passkeys[c]
  {
    map c | c in passkeys && !(passkeys[c].id == id && passkeys[c].userId == userId) :: passkeys[c]
  }

  method Delete(db: Database, id: Id, userId: Id)
    modifies db`passkeys
    ensures db.passkeys == DeleteRows(old(db.passkeys), id, userId)
  {
    db.passkeys := map c | c in db.passkeys
      && !(db.passkeys[c].id == id && db.passkeys[c].userId == userId) :: db.passkeys[c];
  }

  /**
    A user cannot delete someone else's passkey: a row owned by another user survives with
    its contents, and so does every row with a different id; the named row of the owner is
    gone.
  */
  lemma DeleteIsOwnerScoped(passkeys: map<string, PasskeyRow>, id: Id, userId: Id, c: string)
    requires c in passkeys
    ensures var after := DeleteRows(passkeys, id, userId);
      && (passkeys[c].userId != userId ==> FindByCredentialId(after, c) == FindByCredentialId(passkeys, c))
      && (passkeys[c].id != id ==> FindByCredentialId(after, c) == FindByCredentialId(passkeys, c))
      && (passkeys[c].id == id && passkeys[c].userId == userId ==> FindByCredentialId(after, c).None?)
  {
    var after := DeleteRows(passkeys, id, userId);
    if passkeys[c].userId != userId || passkeys[c].id != id {
      assert c in after && after[c] == passkeys[c];
    }
  }

  // ---------------------------------------------------------------------------------------
  // The challenge slot on users.current_challenge
  // ---------------------------------------------------------------------------------------

  /** `UPDATE users SET current_challenge = ? WHERE id = ?`: no row for an unknown user. */
  function SetChallengeRows(users: map<Id, UserRow>, userId: Id, challenge: Option<string>)
    : (r: map<Id, UserRow>)
    ensures r.Keys == users.Keys
    ensures userId in users ==> r[userId] == users[userId].(currentChallenge := challenge)
    ensures forall u :: u in users && u != userId ==> r[u] == users[u]
  {
    if userId in users then users[userId := users[userId].(currentChallenge := challenge)] else users
  }

  /** `Passkey.getChallenge`: the stored challenge, or null when no user has this id. */
  function GetChallenge(users: map<Id, UserRow>, userId: Id): (r: Option<string>)
    ensures userId !in users ==> r.None?
    ensures userId in users ==> r == users[userId].currentChallenge
  {
    if userId in users then users[userId].currentChallenge else None
  }

  method SetChallenge(db: Database, userId: Id, challenge: string)
    modifies db`users
    ensures db.users == SetChallengeRows(old(db.users), userId, Some(challenge))
  {
    if userId in db.users {
      db.users := db.users[userId := db.users[userId].(currentChallenge := Some(challenge))];
    }
  }

  method ClearChallenge(db: Database, userId: Id)
    modifies db`users
    ensures db.users == SetChallengeRows(old(db.users), userId, None)
  {
    if userId in db.users {
      db.users := db.users[userId := db.users[userId].(currentChallenge := None)];
    }
  }

  /**
    The challenge slot: a stored challenge is read back, a cleared one reads as null, an
    unknown user has none even after a `setChallenge`, and other users' slots do not move.
  */
  lemma ChallengeSlot(users: map<Id, UserRow>, userId: Id, challenge: string, other: Id)
    ensures userId in users ==> GetChallenge(SetChallengeRows(users, userId, Some(challenge)), userId) == Some(challenge)
    ensures userId !in users ==> GetChallenge(SetChallengeRows(users, userId, Some(challenge)), userId).None?
    ensures GetChallenge(SetChallengeRows(users, userId, None), userId).None?
    ensures other != userId ==>
      GetChallenge(SetChallengeRows(users, userId, Some(challenge)), other) == GetChallenge(users, other)
      && GetChallenge(SetChallengeRows(users, userId, None), other) == GetChallenge(users, other)
  {
  }
}
