/**
  Special achievements of src/models/Achievement.js: the catalogue of achievements and the
  member_special_achievements rows, one per (member, achievement), that a member's
  submission creates or refreshes, that an administrator's verification or grant marks
  verified, and that a revocation deletes; plus the pending and per-member listings.
*/
module AchievementModel {
  import opened Common
  import opened Schema
  import Sql

  // ---------------------------------------------------------------------------------------
  // special_achievements
  // ---------------------------------------------------------------------------------------

  /**
    `requiresProof ? 1 : 0` for an argument with a default: `None` is an omitted argument,
    which takes the default; `Some(b)` is a passed value whose truthiness is `b`.
  */
  function FlagArgument(arg: Option<bool>, default: bool): (f: Flag)
    ensures f == 1 <==> (if arg.None? then default else arg.value)
  {
    if (if arg.None? then default else arg.value) then 1 else 0
  }

  /**
    The row `create` inserts: requires_proof defaults to 1 and admin_only to 0; a NULL name is
    refused by the NOT NULL constraint.
  */
  function NewAchievementRow(name: Option<string>, description: Option<string>,
                             requiresProof: Option<bool>, adminOnly: Option<bool>)
    : (r: Option<SpecialAchievementRow>)
    ensures r.None? <==> name.None?
    ensures r.Some? ==> r.value.name == name.value && r.value.description == description
    ensures r.Some? ==> (r.value.requiresProof == 1 <==> requiresProof.None? || requiresProof.value)
    ensures r.Some? ==> (r.value.adminOnly == 1 <==> adminOnly.Some? && adminOnly.value)
  {
    if name.None? then None
    else Some(SpecialAchievementRow(name.value, description,
                                    FlagArgument(requiresProof, true), FlagArgument(adminOnly, false)))
  }

  /** `Achievement.create`: inserts the achievement under the next id and returns that id. */
  method Create(db: Database, name: Option<string>, description: Option<string>,
                requiresProof: Option<bool>, adminOnly: Option<bool>) returns (r: Result<Id>)
    modifies db`specialAchievements, db`achievementSeq
    ensures var row := NewAchievementRow(name, description, requiresProof, adminOnly);
      && (r.ConstraintViolation? <==> row.None?)
      && (r.Ok? ==>
            && r.value == old(db.achievementSeq) && db.achievementSeq == old(db.achievementSeq) + 1
            && db.specialAchievements == old(db.specialAchievements)[r.value := row.value])
      && (r.ConstraintViolation? ==>
            && db.specialAchievements == old(db.specialAchievements)
            && db.achievementSeq == old(db.achievementSeq))
    ensures old(db.Valid()) ==> db.Valid()
    ensures old(db.Valid()) && r.Ok? ==> r.value !in old(db.specialAchievements)
  {
    var row := NewAchievementRow(name, description, requiresProof, adminOnly);
    if row.None? {
      return ConstraintViolation;
    }
    r := Ok(db.achievementSeq);
    db.specialAchievements := db.specialAchievements[db.achievementSeq := row.value];
    db.achievementSeq := db.achievementSeq + 1;
  }

  /**
    `Achievement.update` on the table: the row's four columns are replaced (the flags as 1/0
    of their truthiness); an unknown id changes nothing; a NULL name is refused.
  */
  function UpdateAchievementRows(achievements: map<Id, SpecialAchievementRow>, id: Id,
                                 name: Option<string>, description: Option<string>,
                                 requiresProof: bool, adminOnly: bool)
    : (r: Result<map<Id, SpecialAchievementRow>>)
    ensures r.ConstraintViolation? <==> id in achievements && name.None?
    ensures r.Ok? && id !in achievements ==> r.value == achievements
    ensures r.Ok? && id in achievements ==>
      && r.value.Keys == achievements.Keys
      && r.value[id].name == name.value && r.value[id].description == description
      && (r.value[id].requiresProof == 1 <==> requiresProof)
      && (r.value[id].adminOnly == 1 <==> adminOnly)
    ensures r.Ok? ==> forall k :: k in achievements && k != id ==> k in r.value && r.value[k] == achievements[k]
  {
    if id !in achievements then Ok(achievements)
    else if name.None? then ConstraintViolation
    else Ok(achievements[id := SpecialAchievementRow(name.value, description,
                                                    if requiresProof then 1 else 0,
                                                    if adminOnly then 1 else 0)])
  }

  method Update(db: Database, id: Id, name: Option<string>, description: Option<string>,
                requiresProof: bool, adminOnly: bool) returns (r: Result<()>)
    modifies db`specialAchievements
    ensures var u := UpdateAchievementRows(old(db.specialAchievements), id, name, description,
                                           requiresProof, adminOnly);
      (r.Ok? <==> u.Ok?) && db.specialAchievements == (if u.Ok? then u.value else old(db.specialAchievements))
  {
    var u := UpdateAchievementRows(db.specialAchievements, id, name, description, requiresProof, adminOnly);
    if u.ConstraintViolation? {
      return ConstraintViolation;
    }
    db.specialAchievements := u.value;
    r := Ok(());
  }

  /** `Achievement.delete`: removes the achievement with this id, if any. */
  method Delete(db: Database, id: Id)
    modifies db`specialAchievements
    ensures db.specialAchievements == old(db.specialAchievements) - {id}
    ensures forall k :: k in db.specialAchievements <==> k in old(db.specialAchievements) && k != id
  {
    db.specialAchievements := db.specialAchievements - {id};
  }

  /** The ORDER BY key `name`. */
  function NameKey(achievements: map<Id, SpecialAchievementRow>): Id -> seq<Sql.Value> {
    (a: Id) => if a in achievements then [Sql.Text(achievements[a].name)] else []
  }

  /** Rows sorted by `NameKey` are in ascending name order. */
  lemma ByName(achievements: map<Id, SpecialAchievementRow>, r: seq<Id>)
    requires forall i :: 0 <= i < |r| ==> r[i] in achievements
    requires Sql.SortedBy(r, NameKey(achievements))
    ensures forall i, j :: 0 <= i < j < |r| ==>
      Sql.CompareText(achievements[r[i]].name, achievements[r[j]].name) <= 0
  {
    forall i, j | 0 <= i < j < |r|
      ensures Sql.CompareText(achievements[r[i]].name, achievements[r[j]].name) <= 0
    {
      var a, b := r[i], r[j];
      assert NameKey(achievements)(a) == [Sql.Text(achievements[a].name)];
      assert NameKey(achievements)(b) == [Sql.Text(achievements[b].name)];
      Sql.SingleKeyOrder(Sql.Text(achievements[a].name), Sql.Text(achievements[b].name));
    }
  }

  /** The achievement ids of `SELECT ... ORDER BY name`: every achievement once, by name. */
  ghost function IdsByName(achievements: map<Id, SpecialAchievementRow>): (r: seq<Id>)
    ensures Distinct(r) && |r| == |achievements| && forall i :: 0 <= i < |r| ==> r[i] in achievements
    ensures forall a :: a in r <==> a in achievements
    ensures forall i, j :: 0 <= i < j < |r| ==>
      Sql.CompareText(achievements[r[i]].name, achievements[r[j]].name) <= 0
  {
    var r := Sql.OrderBy(achievements.Keys, NameKey(achievements));
    ByName(achievements, r);
    r
  }

  /** `Achievement.getAll`: every achievement with its id, ordered by name. */
  ghost function GetAll(achievements: map<Id, SpecialAchievementRow>): (r: seq<(Id, SpecialAchievementRow)>)
    ensures var ids := IdsByName(achievements);
      |r| == |ids| && forall i :: 0 <= i < |r| ==> r[i] == (ids[i], achievements[ids[i]])
  {
    var ids := IdsByName(achievements);
    seq(|ids|, i requires 0 <= i < |ids| => (ids[i], achievements[ids[i]]))
  }


  // ---------------------------------------------------------------------------------------
  // member_special_achievements
  // ---------------------------------------------------------------------------------------

  /**
    `submitForMember` on the table. An existing row gets the new notes and, when a proof file
    is given, the new proof path (`COALESCE(?, proof_file_path)`); its verification is left
    as it was. Without a row, an unverified row is inserted.
  */
  function SubmitRows(rows: map<(Id, Id), MemberAchievementRow>, memberId: Id, achievementId: Id,
                      proofFilePath: Option<string>, notes: string, now: Timestamp)
    : (r: map<(Id, Id), MemberAchievementRow>)
    ensures var k := (memberId, achievementId);
      && r.Keys == rows.Keys + {k}
      && r[k].notes == Some(notes) && r[k].updatedAt == now
      && r[k].proofFilePath == (if proofFilePath.Some? || k !in rows then proofFilePath
                                else rows[k].proofFilePath)
      && (k in rows ==> r[k] == rows[k].(proofFilePath := r[k].proofFilePath,
                                         notes := Some(notes), updatedAt := now))
      && (k !in rows ==> r[k].verified == 0 && r[k].verifiedBy.None? && r[k].verifiedAt.None?
                         && r[k].grantedBy.None? && r[k].grantedAt.None? && r[k].createdAt == now)
    ensures forall k :: k in rows && k != (memberId, achievementId) ==> r[k] == rows[k]
  {
    var k := (memberId, achievementId);
    if k in rows then
      var old_ := rows[k];
      rows[k := old_.(proofFilePath := if proofFilePath.Some? then proofFilePath else old_.proofFilePath,
                      notes := Some(notes), updatedAt := now)]
    else
      rows[k := MemberAchievementRow(proofFilePath, 0, None, None, None, None, Some(notes), now, now)]
  }

  /**
    The UPDATE that `verify` and `grantAdminAchievement` share: verified = 1, the same user as
    verifier and granter, both times now, the new notes.
  */
  function Approved(row: MemberAchievementRow, approver: Id, notes: string, now: Timestamp)
    : (r: MemberAchievementRow)
    ensures r.verified == 1 && r.verifiedBy == Some(approver) && r.grantedBy == Some(approver)
    ensures r.verifiedAt == Some(now) && r.grantedAt == Some(now) && r.notes == Some(notes)
    ensures r.updatedAt == now
    ensures r.proofFilePath == row.proofFilePath && r.createdAt == row.createdAt
  {
    row.(verified := 1, verifiedBy := Some(approver), verifiedAt := Some(now), grantedBy := Some(approver),
         grantedAt := Some(now), notes := Some(notes), updatedAt := now)
  }

  /** `Achievement.verify` on the table: approves an existing row; without one, nothing changes. */
  function VerifyRows(rows: map<(Id, Id), MemberAchievementRow>, memberId: Id, achievementId: Id,
                      verifiedBy: Id, notes: string, now: Timestamp)
    : (r: map<(Id, Id), MemberAchievementRow>)
    ensures var k := (memberId, achievementId);
      && r.Keys == rows.Keys
      && (k in rows ==> r[k] == Approved(rows[k], verifiedBy, notes, now))
    ensures (memberId, achievementId) !in rows ==> r == rows
    ensures forall k :: k in rows && k != (memberId, achievementId) ==> r[k] == rows[k]
  {
    var k := (memberId, achievementId);
    if k in rows then rows[k := Approved(rows[k], verifiedBy, notes, now)] else rows
  }

  /**
    `Achievement.grantAdminAchievement` on the table: an upsert. Afterwards the row exists and
    is approved by the granter; a new row has no proof and was created now.
  */
  function GrantRows(rows: map<(Id, Id), MemberAchievementRow>, memberId: Id, achievementId: Id,
                     grantedBy: Id, notes: string, now: Timestamp)
    : (r: map<(Id, Id), MemberAchievementRow>)
    ensures var k := (memberId, achievementId);
      && r.Keys == rows.Keys + {k}
      && r[k].verified == 1 && r[k].verifiedBy == Some(grantedBy) && r[k].grantedBy == Some(grantedBy)
      && r[k].verifiedAt == Some(now) && r[k].grantedAt == Some(now) && r[k].notes == Some(notes)
      && (k !in rows ==> r[k].proofFilePath.None? && r[k].createdAt == now && r[k].updatedAt == now)
      && (k in rows ==> r[k].proofFilePath == rows[k].proofFilePath && r[k].createdAt == rows[k].createdAt)
    ensures forall k :: k in rows && k != (memberId, achievementId) ==> r[k] == rows[k]
  {
    var k := (memberId, achievementId);
    if k in rows then rows[k := Approved(rows[k], grantedBy, notes, now)]
    else
      rows[k := MemberAchievementRow(None, 1, Some(grantedBy), Some(now), Some(grantedBy), Some(now),
                                     Some(notes), now, now)]
  }

  /** `Achievement.revokeAdminAchievement` on the table: deletes the (member, achievement) row. */
  function RevokeRows(rows: map<(Id, Id), MemberAchievementRow>, memberId: Id, achievementId: Id)
    : (r: map<(Id, Id), MemberAchievementRow>)
    ensures r.Keys == rows.Keys - {(memberId, achievementId)}
    ensures forall k :: k in r ==> r[k] == rows[k]
  {
    rows - {(memberId, achievementId)}
  }

  method SubmitForMember(db: Database, memberId: Id, achievementId: Id,
                         proofFilePath: Option<string>, notes: string, now: Timestamp)
    modifies db`memberAchievements
    ensures db.memberAchievements
         == SubmitRows(old(db.memberAchievements), memberId, achievementId, proofFilePath, notes, now)
  {
    db.memberAchievements := SubmitRows(db.memberAchievements, memberId, achievementId, proofFilePath, notes, now);
  }

  method Verify(db: Database, memberId: Id, achievementId: Id, verifiedBy: Id, notes: string,
                now: Timestamp)
    modifies db`memberAchievements
    ensures db.memberAchievements
         == VerifyRows(old(db.memberAchievements), memberId, achievementId, verifiedBy, notes, now)
  {
    if (memberId, achievementId) in db.memberAchievements {
      db.memberAchievements := VerifyRows(db.memberAchievements, memberId, achievementId, verifiedBy, notes, now);
    }
  }

  method GrantAdminAchievement(db: Database, memberId: Id, achievementId: Id, grantedBy: Id,
                               notes: string, now: Timestamp)
    modifies db`memberAchievements
    ensures db.memberAchievements
         == GrantRows(old(db.memberAchievements), memberId, achievementId, grantedBy, notes, now)
  {
    db.memberAchievements := GrantRows(db.memberAchievements, memberId, achievementId, grantedBy, notes, now);
  }

  method RevokeAdminAchievement(db: Database, memberId: Id, achievementId: Id)
    modifies db`memberAchievements
    ensures db.memberAchievements == RevokeRows(old(db.memberAchievements), memberId, achievementId)
  {
    db.memberAchievements := RevokeRows(db.memberAchievements, memberId, achievementId);
  }

  // ---------------------------------------------------------------------------------------
  // How the writes combine
  // ---------------------------------------------------------------------------------------

  /** On an existing row, granting and verifying perform the same update. */
  lemma GrantOnExistingRowIsVerify(rows: map<(Id, Id), MemberAchievementRow>, memberId: Id,
                                   achievementId: Id, approver: Id, notes: string, now: Timestamp)
    requires (memberId, achievementId) in rows
    ensures GrantRows(rows, memberId, achievementId, approver, notes, now)
         == VerifyRows(rows, memberId, achievementId, approver, notes, now)
  {
  }

  /**
    A member resubmitting after approval keeps the approval: the verification columns survive
    the new notes and proof.
  */
  lemma ResubmissionKeepsApproval(rows: map<(Id, Id), MemberAchievementRow>, memberId: Id,
                                  achievementId: Id, approver: Id, notes: string, now: Timestamp,
                                  proofFilePath: Option<string>, notes': string, later: Timestamp)
    requires (memberId, achievementId) in rows
    ensures var k := (memberId, achievementId);
      var r := SubmitRows(VerifyRows(rows, memberId, achievementId, approver, notes, now),
                          memberId, achievementId, proofFilePath, notes', later);
      r[k].verified == 1 && r[k].verifiedBy == Some(approver) && r[k].verifiedAt == Some(now)
  {
  }

  /** Revoking a grant removes the row whatever was there before, and touches no other row. */
  lemma RevokeUndoesGrant(rows: map<(Id, Id), MemberAchievementRow>, memberId: Id,
                          achievementId: Id, approver: Id, notes: string, now: Timestamp)
    ensures RevokeRows(GrantRows(rows, memberId, achievementId, approver, notes, now), memberId, achievementId)
         == rows - {(memberId, achievementId)}
  {
  }

  // ---------------------------------------------------------------------------------------
  // getPendingVerifications
  // ---------------------------------------------------------------------------------------

  /**
    The rows `getPendingVerifications` selects: verified = 0, and both the achievement and the
    member exist (the two inner JOINs).
  */
  function PendingKeys(rows: map<(Id, Id), MemberAchievementRow>,
                       achievements: map<Id, SpecialAchievementRow>, members: map<Id, MemberRow>)
    : (s: set<(Id, Id)>)
    ensures s <= rows.Keys
    ensures forall k :: k in s <==>
      (k in rows && rows[k].verified == 0 && k.1 in achievements && k.0 in members)
  {
    set k | k in rows.Keys && rows[k].verified == 0 && k.1 in achievements && k.0 in members
  }

  /** The ORDER BY key `msa.created_at ASC`. */
  function CreatedKey(rows: map<(Id, Id), MemberAchievementRow>): ((Id, Id)) -> seq<Sql.Value> {
    (k: (Id, Id)) => if k in rows then [Sql.Int(rows[k].createdAt)] else []
  }

  /** Rows sorted by `CreatedKey` are in ascending `created_at` order. */
  lemma OldestFirst(rows: map<(Id, Id), MemberAchievementRow>, r: seq<(Id, Id)>)
    requires forall i :: 0 <= i < |r| ==> r[i] in rows
    requires Sql.SortedBy(r, CreatedKey(rows))
    ensures forall i, j :: 0 <= i < j < |r| ==> rows[r[i]].createdAt <= rows[r[j]].createdAt
  {
    forall i, j | 0 <= i < j < |r|
      ensures rows[r[i]].createdAt <= rows[r[j]].createdAt
    {
      var a, b := r[i], r[j];
      assert CreatedKey(rows)(a) == [Sql.Int(rows[a].createdAt)];
      assert CreatedKey(rows)(b) == [Sql.Int(rows[b].createdAt)];
      Sql.IntKeyOrder(rows[a].createdAt, rows[b].createdAt);
    }
  }

  /** The (member, achievement) keys of the pending rows, oldest submission first. */
  ghost function PendingOrder(rows: map<(Id, Id), MemberAchievementRow>,
                              achievements: map<Id, SpecialAchievementRow>, members: map<Id, MemberRow>)
    : (r: seq<(Id, Id)>)
    ensures Distinct(r) && forall i :: 0 <= i < |r| ==> r[i] in rows
    ensures forall k :: k in r <==> k in PendingKeys(rows, achievements, members)
    ensures forall i, j :: 0 <= i < j < |r| ==> rows[r[i]].createdAt <= rows[r[j]].createdAt
  {
    var keys := PendingKeys(rows, achievements, members);
    var r := Sql.OrderBy(keys, CreatedKey(rows));
    Sql.OrderByWithin(keys, CreatedKey(rows), rows.Keys);
    OldestFirst(rows, r);
    r
  }

  /** One row of `getPendingVerifications` (member and achievement columns taken whole). */
  datatype PendingEntry = PendingEntry(
    memberId: Id, achievementId: Id, submission: MemberAchievementRow,
    achievement: SpecialAchievementRow, member: MemberRow)

  ghost function GetPendingVerifications(rows: map<(Id, Id), MemberAchievementRow>,
                                         achievements: map<Id, SpecialAchievementRow>,
                                         members: map<Id, MemberRow>)
    : (r: seq<PendingEntry>)
    ensures var order := PendingOrder(rows, achievements, members);
      |r| == |order| && forall i :: 0 <= i < |r| ==>
        r[i] == PendingEntry(order[i].0, order[i].1, rows[order[i]], achievements[order[i].1],
                             members[order[i].0])
  {
    var order := PendingOrder(rows, achievements, members);
    seq(|order|, i requires 0 <= i < |order| =>
      PendingEntry(order[i].0, order[i].1, rows[order[i]], achievements[order[i].1], members[order[i].0]))
  }

  /**
    A first submission of an existing member for an existing achievement awaits verification;
    once verified or granted it no longer does.
  */
  lemma SubmissionAwaitsVerification(rows: map<(Id, Id), MemberAchievementRow>,
                                     achievements: map<Id, SpecialAchievementRow>,
                                     members: map<Id, MemberRow>, memberId: Id, achievementId: Id,
                                     proofFilePath: Option<string>, notes: string, now: Timestamp,
                                     approver: Id, notes': string, later: Timestamp)
    requires (memberId, achievementId) !in rows
    requires achievementId in achievements && memberId in members
    ensures var submitted := SubmitRows(rows, memberId, achievementId, proofFilePath, notes, now);
      && (memberId, achievementId) in PendingOrder(submitted, achievements, members)
      && (memberId, achievementId) !in PendingOrder(
           VerifyRows(submitted, memberId, achievementId, approver, notes', later), achievements, members)
  {
  }

  /** A grant never leaves the row pending. */
  lemma GrantIsNeverPending(rows: map<(Id, Id), MemberAchievementRow>,
                            achievements: map<Id, SpecialAchievementRow>, members: map<Id, MemberRow>,
                            memberId: Id, achievementId: Id, approver: Id, notes: string, now: Timestamp)
    ensures (memberId, achievementId)
      !in PendingOrder(GrantRows(rows, memberId, achievementId, approver, notes, now), achievements, members)
  {
  }

  // ---------------------------------------------------------------------------------------
  // getMemberAchievements
  // ---------------------------------------------------------------------------------------

  /**
    One row of `getMemberAchievements`: the achievement and the member's row for it, or `None`
    where the LEFT JOIN found none (the joined e-mail addresses are not modelled).
  */
  datatype MemberAchievementEntry = MemberAchievementEntry(
    achievementId: Id, achievement: SpecialAchievementRow, status: Option<MemberAchievementRow>)

  function EntryFor(achievements: map<Id, SpecialAchievementRow>,
                    rows: map<(Id, Id), MemberAchievementRow>, memberId: Id, a: Id)
    : (e: MemberAchievementEntry)
    requires a in achievements
    ensures e.achievementId == a && e.achievement == achievements[a]
    ensures e.status.Some? <==> (memberId, a) in rows
    ensures e.status.Some? ==> e.status.value == rows[(memberId, a)]
  {
    MemberAchievementEntry(a, achievements[a],
                           if (memberId, a) in rows then Some(rows[(memberId, a)]) else None)
  }

  /** `Achievement.getMemberAchievements`: one entry per achievement, ordered by name. */
  ghost function GetMemberAchievements(achievements: map<Id, SpecialAchievementRow>,
                                       rows: map<(Id, Id), MemberAchievementRow>, memberId: Id)
    : (r: seq<MemberAchievementEntry>)
    ensures var ids := IdsByName(achievements);
      |r| == |ids| && forall i :: 0 <= i < |r| ==> r[i] == EntryFor(achievements, rows, memberId, ids[i])
  {
    Entries(achievements, rows, memberId, IdsByName(achievements))
  }

  /** The entries of the listed achievements, in the order given. */
  function Entries(achievements: map<Id, SpecialAchievementRow>,
                   rows: map<(Id, Id), MemberAchievementRow>, memberId: Id, ids: seq<Id>)
    : (r: seq<MemberAchievementEntry>)
    requires forall i :: 0 <= i < |ids| ==> ids[i] in achievements
    ensures |r| == |ids| && forall i :: 0 <= i < |r| ==> r[i] == EntryFor(achievements, rows, memberId, ids[i])
  {
    seq(|ids|, i requires 0 <= i < |ids| => EntryFor(achievements, rows, memberId, ids[i]))
  }

  /**
    Every achievement is listed exactly once, with the member's status for it; the rows of
    other members never show.
  */
  lemma MemberAchievementsListEach(achievements: map<Id, SpecialAchievementRow>,
                                   rows: map<(Id, Id), MemberAchievementRow>, memberId: Id, a: Id)
    ensures var r := GetMemberAchievements(achievements, rows, memberId);
      && |r| == |achievements|
      && ((exists i :: 0 <= i < |r| && r[i].achievementId == a) <==> a in achievements)
      && (forall i, j :: 0 <= i < j < |r| ==> r[i].achievementId != r[j].achievementId)
      && (forall i :: 0 <= i < |r| && r[i].achievementId == a ==>
            (r[i].status.Some? <==> (memberId, a) in rows))
  {
    var r := GetMemberAchievements(achievements, rows, memberId);
    var ids := IdsByName(achievements);
    assert forall i :: 0 <= i < |r| ==> r[i].achievementId == ids[i];
    if a in achievements {
      var i :| 0 <= i < |ids| && ids[i] == a;
      assert r[i].achievementId == a;
    }
  }
}
