/**
  Events of src/models/Event.js: one RSVP row per (event, member) that is switched between
  attending and cancelled, the tier rule deciding who may attend, the attendee list, and the
  calendar's month window built as date strings.
*/
module EventModel {
  import opened Common
  import opened Schema
  import Js
  import Sql
  import TierModel
  import TaskModel
  import MemberModel

  // ---------------------------------------------------------------------------------------
  // event_rsvps upserts
  // ---------------------------------------------------------------------------------------

  /** `Event.getMemberRSVPStatus`: the member's RSVP row for the event, cancelled or not. */
  function GetMemberRsvpStatus(rsvps: map<(Id, Id), RsvpRow>, eventId: Id, memberId: Id)
    : (r: Option<RsvpRow>)
    ensures r.Some? <==> (eventId, memberId) in rsvps
    ensures r.Some? ==> r.value == rsvps[(eventId, memberId)]
  {
    if (eventId, memberId) in rsvps then Some(rsvps[(eventId, memberId)]) else None
  }

  /**
    `Event.addRSVP` on the table: the (event, member) row afterwards says attending with the
    given notes, whether it was there (cancelled or not) or is new.
  */
  function AddRsvpRows(rsvps: map<(Id, Id), RsvpRow>, eventId: Id, memberId: Id, notes: string,
                       now: Timestamp): (r: map<(Id, Id), RsvpRow>)
    ensures r.Keys == rsvps.Keys + {(eventId, memberId)}
    ensures |r| == if (eventId, memberId) in rsvps then |rsvps| else |rsvps| + 1
    ensures var row := r[(eventId, memberId)];
      row.status == Attending && row.notes == Some(notes) && row.updatedAt == now
    ensures (eventId, memberId) in rsvps ==>
      r[(eventId, memberId)].createdAt == rsvps[(eventId, memberId)].createdAt
    ensures (eventId, memberId) !in rsvps ==> r[(eventId, memberId)].createdAt == now
    ensures forall k :: k in rsvps && k != (eventId, memberId) ==> r[k] == rsvps[k]
  {
    var k := (eventId, memberId);
    if k in rsvps then rsvps[k := rsvps[k].(status := Attending, notes := Some(notes), updatedAt := now)]
    else rsvps[k := RsvpRow(Attending, Some(notes), now, now)]
  }

  /**
    `Event.removeRSVP` on the table: an existing row is marked cancelled and kept, its notes
    and creation time untouched; without a row nothing happens.
  */
  function RemoveRsvpRows(rsvps: map<(Id, Id), RsvpRow>, eventId: Id, memberId: Id, now: Timestamp)
    : (r: map<(Id, Id), RsvpRow>)
    ensures r.Keys == rsvps.Keys
    ensures (eventId, memberId) in rsvps ==> (var row := r[(eventId, memberId)];
      && row.status == Cancelled && row.updatedAt == now
      && row.notes == rsvps[(eventId, memberId)].notes
      && row.createdAt == rsvps[(eventId, memberId)].createdAt)
    ensures (eventId, memberId) !in rsvps ==> r == rsvps
    ensures forall k :: k in rsvps && k != (eventId, memberId) ==> r[k] == rsvps[k]
  {
    var k := (eventId, memberId);
    if k in rsvps then rsvps[k := rsvps[k].(status := Cancelled, updatedAt := now)] else rsvps
  }

  /** Cancelling and then RSVPing again is the same as RSVPing: the row comes back to life. */
  lemma RsvpAfterCancel(rsvps: map<(Id, Id), RsvpRow>, eventId: Id, memberId: Id, notes: string,
                        t1: Timestamp, t2: Timestamp)
    ensures AddRsvpRows(RemoveRsvpRows(rsvps, eventId, memberId, t1), eventId, memberId, notes, t2)
         == AddRsvpRows(rsvps, eventId, memberId, notes, t2)
  {
    var k := (eventId, memberId);
    var a := AddRsvpRows(RemoveRsvpRows(rsvps, eventId, memberId, t1), eventId, memberId, notes, t2);
    var b := AddRsvpRows(rsvps, eventId, memberId, notes, t2);
    assert a.Keys == b.Keys;
    assert forall j :: j in a ==> a[j] == b[j];
  }

  /** `Event.addRSVP(eventId, memberId, notes = '')`. */
  method AddRsvp(db: Database, eventId: Id, memberId: Id, notes: Option<string>, now: Timestamp)
    modifies db`eventRsvps
    ensures db.eventRsvps
         == AddRsvpRows(old(db.eventRsvps), eventId, memberId, TaskModel.NotesArgument(notes), now)
  {
    var existing := GetMemberRsvpStatus(db.eventRsvps, eventId, memberId);
    var n := TaskModel.NotesArgument(notes);
    if existing.Some? {
      db.eventRsvps := db.eventRsvps[(eventId, memberId) :=
        existing.value.(status := Attending, notes := Some(n), updatedAt := now)];
    } else {
      db.eventRsvps := db.eventRsvps[(eventId, memberId) := RsvpRow(Attending, Some(n), now, now)];
    }
  }

  /** `Event.removeRSVP`: an UPDATE that matches at most the one row of the pair. */
  method RemoveRsvp(db: Database, eventId: Id, memberId: Id, now: Timestamp)
    modifies db`eventRsvps
    ensures db.eventRsvps == RemoveRsvpRows(old(db.eventRsvps), eventId, memberId, now)
  {
    if (eventId, memberId) in db.eventRsvps {
      var row := db.eventRsvps[(eventId, memberId)];
      db.eventRsvps := db.eventRsvps[(eventId, memberId) := row.(status := Cancelled, updatedAt := now)];
    }
  }

  // ---------------------------------------------------------------------------------------
  // canMemberAttend
  // ---------------------------------------------------------------------------------------

  /** `event.minimum_tier_id` is truthy: neither NULL nor 0. */
  predicate HasMinimumTier(e: EventRow) {
    e.minimumTierId.Some? && e.minimumTierId.value != 0
  }

  /**
    `event.tier_order`, the minimum tier's sort_order from the LEFT JOIN in `findById`. A
    minimum tier that no longer exists gives NULL, which JavaScript's `>=` compares as 0.
  */
  function RequiredOrder(tiers: map<Id, TierRow>, e: EventRow): int {
    if e.minimumTierId.Some? && e.minimumTierId.value in tiers then tiers[e.minimumTierId.value].sortOrder
    else 0
  }

  /**
    `Event.canMemberAttend`: events that are missing or have no minimum tier are open to
    everyone; otherwise the member needs a current tier (`Member.getCurrentTier`) whose
    sort_order reaches the required one, and a member without an achieved tier is refused.
  */
  function CanMemberAttend(tiers: map<Id, TierRow>, memberTiers: map<(Id, Id), MemberTierRow>,
                           events: map<Id, EventRow>, memberId: Id, eventId: Id): (r: bool)
    ensures eventId !in events || !HasMinimumTier(events[eventId]) ==> r
    ensures (eventId in events && HasMinimumTier(events[eventId])
             && MemberModel.GetCurrentTier(tiers, memberTiers, memberId).None?) ==> !r
    ensures (eventId in events && HasMinimumTier(events[eventId])
             && MemberModel.GetCurrentTier(tiers, memberTiers, memberId).Some?) ==>
      (r <==> tiers[MemberModel.GetCurrentTier(tiers, memberTiers, memberId).value].sortOrder
                >= RequiredOrder(tiers, events[eventId]))
  {
    if eventId !in events || !HasMinimumTier(events[eventId]) then true
    else
      var required := RequiredOrder(tiers, events[eventId]);
      var achieved := MemberModel.AchievedTiers(tiers, memberTiers, memberId);
      var r := exists t :: t in achieved && tiers[t].sortOrder >= required;
      assert MemberModel.GetCurrentTier(tiers, memberTiers, memberId).Some? ==> (
        var c := MemberModel.GetCurrentTier(tiers, memberTiers, memberId).value;
        c in achieved && (r <==> tiers[c].sortOrder >= required));
      r
  }

  /** Any achieved tier whose sort_order reaches the requirement admits the member. */
  lemma AchievedTierAdmits(tiers: map<Id, TierRow>, memberTiers: map<(Id, Id), MemberTierRow>,
                           events: map<Id, EventRow>, memberId: Id, eventId: Id, tierId: Id)
    requires tierId in tiers && TierModel.Achieved(memberTiers, memberId, tierId)
    requires eventId in events ==> tiers[tierId].sortOrder >= RequiredOrder(tiers, events[eventId])
    ensures CanMemberAttend(tiers, memberTiers, events, memberId, eventId)
  {
    assert tierId in MemberModel.AchievedTiers(tiers, memberTiers, memberId);
  }

  /** A member admitted to an event is admitted to every event with a lower or equal requirement. */
  lemma LowerRequirementAdmits(tiers: map<Id, TierRow>, memberTiers: map<(Id, Id), MemberTierRow>,
                               events: map<Id, EventRow>, memberId: Id, e1: Id, e2: Id)
    requires e1 in events && HasMinimumTier(events[e1])
    requires CanMemberAttend(tiers, memberTiers, events, memberId, e1)
    requires e2 in events ==> RequiredOrder(tiers, events[e2]) <= RequiredOrder(tiers, events[e1])
    ensures CanMemberAttend(tiers, memberTiers, events, memberId, e2)
  {
    var c := MemberModel.GetCurrentTier(tiers, memberTiers, memberId).value;
    AchievedTierAdmits(tiers, memberTiers, events, memberId, e2, c);
  }

  /** Achieving more tiers never takes an event away: eligibility is monotone in member_tiers. */
  lemma AttendanceIsMonotone(tiers: map<Id, TierRow>, before: map<(Id, Id), MemberTierRow>,
                             after: map<(Id, Id), MemberTierRow>, events: map<Id, EventRow>,
                             memberId: Id, eventId: Id)
    requires forall t :: TierModel.Achieved(before, memberId, t) ==> TierModel.Achieved(after, memberId, t)
    requires CanMemberAttend(tiers, before, events, memberId, eventId)
    ensures CanMemberAttend(tiers, after, events, memberId, eventId)
  {
    if eventId in events && HasMinimumTier(events[eventId]) {
      var c := MemberModel.GetCurrentTier(tiers, before, memberId).value;
      AchievedTierAdmits(tiers, after, events, memberId, eventId, c);
    }
  }

  /** In particular the achievement check of any tier keeps every event a member could attend. */
  lemma AchievementKeepsAttendance(tasks: map<Id, TaskRow>, memberTasks: map<(Id, Id), MemberTaskRow>,
                                   tiers: map<Id, TierRow>, memberTiers: map<(Id, Id), MemberTierRow>,
                                   events: map<Id, EventRow>, checkedMember: Id, checkedTier: Id,
                                   now: Timestamp, memberId: Id, eventId: Id)
    requires CanMemberAttend(tiers, memberTiers, events, memberId, eventId)
    ensures CanMemberAttend(tiers, TierModel.AchievementStep(tasks, memberTasks, memberTiers,
                                                             checkedMember, checkedTier, now),
                            events, memberId, eventId)
  {
    var after := TierModel.AchievementStep(tasks, memberTasks, memberTiers, checkedMember, checkedTier, now);
    AttendanceIsMonotone(tiers, memberTiers, after, events, memberId, eventId);
  }

  /**
    The RSVP route (src/routes/events.js): the RSVP is written only when `canMemberAttend`
    holds, with `req.body.notes || ''` as its notes; otherwise nothing changes.
  */
  method RsvpToEvent(db: Database, memberId: Id, eventId: Id, notes: Option<string>, now: Timestamp)
    returns (admitted: bool)
    modifies db`eventRsvps
    ensures admitted == CanMemberAttend(db.tiers, db.memberTiers, db.events, memberId, eventId)
    ensures admitted ==>
      db.eventRsvps == AddRsvpRows(old(db.eventRsvps), eventId, memberId, TaskModel.NotesArgument(notes), now)
    ensures !admitted ==> db.eventRsvps == old(db.eventRsvps)
  {
    admitted := CanMemberAttend(db.tiers, db.memberTiers, db.events, memberId, eventId);
    if admitted {
      AddRsvp(db, eventId, memberId, notes, now);
    }
  }

  // ---------------------------------------------------------------------------------------
  // getAttendees
  // ---------------------------------------------------------------------------------------

  /** One attendee row: the member, the user's email, and the RSVP's notes and creation time. */
  datatype Attendee = Attendee(memberId: Id, member: MemberRow, email: string, notes: Option<string>,
                               rsvpDate: Timestamp)

  /** The members with an attending RSVP for the event that survive both inner JOINs. */
  function AttendingIds(members: map<Id, MemberRow>, users: map<Id, UserRow>,
                        rsvps: map<(Id, Id), RsvpRow>, eventId: Id): (s: set<Id>)
    ensures forall m :: m in s <==>
      && (eventId, m) in rsvps && rsvps[(eventId, m)].status == Attending
      && m in members && MemberModel.MemberEmail(users, members[m]).Some?
    ensures s <= members.Keys
  {
    set m | m in members.Keys && (eventId, m) in rsvps && rsvps[(eventId, m)].status == Attending
              && MemberModel.MemberEmail(users, members[m]).Some?
  }

  function NameKey(members: map<Id, MemberRow>): Id -> seq<Sql.Value> {
    m => if m in members then [Column(members[m], LastName), Column(members[m], FirstName)] else []
  }

  /** `a` may be listed before `b`: a smaller last name, or the same one and a first name not larger. */
  predicate NameOrdered(a: MemberRow, b: MemberRow) {
    || Sql.CompareValue(Column(a, LastName), Column(b, LastName)) < 0
    || (Column(a, LastName) == Column(b, LastName)
        && Sql.CompareValue(Column(a, FirstName), Column(b, FirstName)) <= 0)
  }

  lemma NameKeyOrder(members: map<Id, MemberRow>, a: Id, b: Id)
    requires a in members && b in members
    ensures Sql.CompareKey(NameKey(members)(a), NameKey(members)(b)) <= 0
        <==> NameOrdered(members[a], members[b])
  {
    var x, y := members[a], members[b];
    Sql.PairKeyOrder(Column(x, LastName), Column(x, FirstName), Column(y, LastName), Column(y, FirstName));
  }

  /** `ORDER BY m.last_name, m.first_name`: each attendee once, by last name then first name. */
  ghost function AttendeeOrder(members: map<Id, MemberRow>, users: map<Id, UserRow>,
                               rsvps: map<(Id, Id), RsvpRow>, eventId: Id): (r: seq<Id>)
    ensures Distinct(r)
    ensures forall m :: m in r <==> m in AttendingIds(members, users, rsvps, eventId)
    ensures forall i, j :: 0 <= i < j < |r| ==> NameOrdered(members[r[i]], members[r[j]])
  {
    var ids := AttendingIds(members, users, rsvps, eventId);
    var r := Sql.OrderBy(ids, NameKey(members));
    Sql.OrderByWithin(ids, NameKey(members), members.Keys);
    assert forall i, j :: 0 <= i < j < |r| ==> NameOrdered(members[r[i]], members[r[j]]) by {
      forall i, j | 0 <= i < j < |r| ensures NameOrdered(members[r[i]], members[r[j]]) {
        NameKeyOrder(members, r[i], r[j]);
      }
    }
    r
  }

  function AttendeeOf(members: map<Id, MemberRow>, users: map<Id, UserRow>,
                      rsvps: map<(Id, Id), RsvpRow>, eventId: Id, memberId: Id): (a: Attendee)
    requires memberId in AttendingIds(members, users, rsvps, eventId)
    ensures a.memberId == memberId && a.member == members[memberId]
    ensures Some(a.email) == MemberModel.MemberEmail(users, members[memberId])
    ensures a.notes == rsvps[(eventId, memberId)].notes
    ensures a.rsvpDate == rsvps[(eventId, memberId)].createdAt
  {
    var row := rsvps[(eventId, memberId)];
    Attendee(memberId, members[memberId], MemberModel.MemberEmail(users, members[memberId]).value,
             row.notes, row.createdAt)
  }

  /** `Event.getAttendees`: the attending members of the event, by last name then first name. */
  ghost function GetAttendees(members: map<Id, MemberRow>, users: map<Id, UserRow>,
                              rsvps: map<(Id, Id), RsvpRow>, eventId: Id): (r: seq<Attendee>)
    ensures var order := AttendeeOrder(members, users, rsvps, eventId);
      |r| == |order| && forall i :: 0 <= i < |r| ==> r[i] == AttendeeOf(members, users, rsvps, eventId, order[i])
  {
    var order := AttendeeOrder(members, users, rsvps, eventId);
    seq(|order|, i requires 0 <= i < |order| => AttendeeOf(members, users, rsvps, eventId, order[i]))
  }

  /**
    After an RSVP an existing member with a user is listed; after a cancellation the member is
    not; and neither changes whether any other member is listed.
  */
  lemma RsvpChangesOnlyThatAttendee(members: map<Id, MemberRow>, users: map<Id, UserRow>,
                                    rsvps: map<(Id, Id), RsvpRow>, eventId: Id, memberId: Id,
                                    notes: string, now: Timestamp, other: Id)
    requires other != memberId
    ensures var added := AttendingIds(members, users, AddRsvpRows(rsvps, eventId, memberId, notes, now), eventId);
      && (memberId in added <==> memberId in members && MemberModel.MemberEmail(users, members[memberId]).Some?)
      && (other in added <==> other in AttendingIds(members, users, rsvps, eventId))
    ensures var removed := AttendingIds(members, users, RemoveRsvpRows(rsvps, eventId, memberId, now), eventId);
      && memberId !in removed
      && (other in removed <==> other in AttendingIds(members, users, rsvps, eventId))
  {
  }

  // ---------------------------------------------------------------------------------------
  // getByMonth: the month window as date strings
  // ---------------------------------------------------------------------------------------

  /** 10 to the power `w`: the number of values a `w`-digit field can hold. */
  function Pow10(w: nat): (p: nat)
    ensures p >= 1
  {
    if w == 0 then 1 else 10 * Pow10(w - 1)
  }

  /** `n` in exactly `w` decimal digits, zero-padded, as SQLite prints the fields of a date. */
  function Digits(n: nat, w: nat): (s: string)
    ensures |s| == w && Js.AllDigits(s)
  {
    if w == 0 then [] else Digits(n / 10, w - 1) + [Js.DigitChar(n % 10)]
  }

  function Sign(x: int): int {
    if x < 0 then -1 else if x == 0 then 0 else 1
  }

  /** Zero-padded numerals of the same width compare as the numbers they write. */
  lemma {:induction false} CompareDigits(a: nat, b: nat, w: nat)
    requires a < Pow10(w) && b < Pow10(w)
    ensures Sql.CompareText(Digits(a, w), Digits(b, w)) == Sign(a - b)
  {
    if w > 0 {
      var ca, cb := Js.DigitChar(a % 10), Js.DigitChar(b % 10);
      CompareDigits(a / 10, b / 10, w - 1);
      Sql.CompareTextAppend(Digits(a / 10, w - 1), [ca], Digits(b / 10, w - 1), [cb]);
      assert [ca][1..] == [] && [cb][1..] == [];
      assert ca as int - cb as int == a % 10 - b % 10;
    }
  }

  /** The text `YYYY-MM-DD` that SQLite's `date()` returns. */
  function DateText(year: nat, month: nat, day: nat): string {
    Digits(year, 4) + (['-'] + (Digits(month, 2) + (['-'] + Digits(day, 2))))
  }

  /** Dates written as `YYYY-MM-DD` compare as text exactly as they compare as dates. */
  lemma CompareDateText(y1: nat, m1: nat, d1: nat, y2: nat, m2: nat, d2: nat)
    requires y1 < 10000 && y2 < 10000 && m1 < 100 && m2 < 100 && d1 < 100 && d2 < 100
    ensures Sql.CompareText(DateText(y1, m1, d1), DateText(y2, m2, d2))
         == if y1 != y2 then Sign(y1 - y2) else if m1 != m2 then Sign(m1 - m2) else Sign(d1 - d2)
  {
    CompareDigits(y1, y2, 4);
    CompareDigits(m1, m2, 2);
    CompareDigits(d1, d2, 2);
    var tail1, tail2 := ['-'] + Digits(d1, 2), ['-'] + Digits(d2, 2);
    Sql.CompareTextAppend(['-'], Digits(d1, 2), ['-'], Digits(d2, 2));
    Sql.CompareTextAppend(Digits(m1, 2), tail1, Digits(m2, 2), tail2);
    Sql.CompareTextAppend(['-'], Digits(m1, 2) + tail1, ['-'], Digits(m2, 2) + tail2);
    Sql.CompareTextAppend(Digits(y1, 4), ['-'] + (Digits(m1, 2) + tail1),
                          Digits(y2, 4), ['-'] + (Digits(m2, 2) + tail2));
  }

  /** `startDate`: `${year}-${String(month).padStart(2, '0')}-01`. */
  function MonthStart(year: int, month: int): (s: string)
    ensures |s| >= 3 && s[|s| - 3..] == "-01"
  {
    Js.IntToString(year) + "-" + Js.PadStart(Js.IntToString(month), 2, '0') + "-01"
  }

  /** `endDate`: the first of the next month; December rolls over to January of `year + 1`. */
  function MonthEnd(year: int, month: int): (s: string)
    ensures |s| >= 3 && s[|s| - 3..] == "-01"
  {
    if month == 12 then Js.IntToString(year + 1) + "-01-01"
    else Js.IntToString(year) + "-" + Js.PadStart(Js.IntToString(month + 1), 2, '0') + "-01"
  }

  /**
    SQLite's `date(s)` on a string ending in "-01": the same text when it reads YYYY-MM-01
    with a month from 01 to 12, and NULL otherwise.
  */
  function DateOfFirst(s: string): (r: Option<string>)
    requires |s| >= 3 && s[|s| - 3..] == "-01"
    ensures r.Some? ==> r.value == s && |s| == 10
  {
    if |s| == 10 && Js.AllDigits(s[..4]) && s[4] == '-' && Js.IsDigit(s[5]) && Js.IsDigit(s[6])
       && 1 <= 10 * Js.DigitValue(s[5]) + Js.DigitValue(s[6]) <= 12
    then Some(s)
    else None
  }

  /** SQLite's `date(e.event_date)`, or NULL for a date it cannot write as YYYY-MM-DD. */
  function EventDay(d: DateTime): Option<string> {
    if d.year < 10000 && 1 <= d.month <= 12 && 1 <= d.day <= 31 then Some(DateText(d.year, d.month, d.day))
    else None
  }

  /**
    `date(e.event_date) >= date(?) AND date(e.event_date) < date(?)`; a NULL operand makes the
    condition NULL, which drops the row.
  */
  predicate InMonthWindow(d: DateTime, year: int, month: int) {
    match (EventDay(d), DateOfFirst(MonthStart(year, month)), DateOfFirst(MonthEnd(year, month)))
    case (Some(x), Some(s), Some(e)) => Sql.CompareText(x, s) >= 0 && Sql.CompareText(x, e) < 0
    case _ => false
  }

  lemma {:induction false} NatToStringIsDigits(n: nat, w: nat)
    requires 1 <= w && Pow10(w - 1) <= n < Pow10(w)
    ensures Js.NatToString(n) == Digits(n, w)
  {
    if w > 1 {
      assert Pow10(w - 1) == 10 * Pow10(w - 2);
      assert Pow10(w - 2) <= n / 10 < Pow10(w - 1);
      NatToStringIsDigits(n / 10, w - 1);
    }
  }

  lemma YearText(year: int)
    requires 1000 <= year <= 9999
    ensures Js.IntToString(year) == Digits(year, 4)
  {
    assert Pow10(3) == 1000 && Pow10(4) == 10000;
    NatToStringIsDigits(year, 4);
  }

  /** A two-digit field: its characters are the tens and the units, read back as `n`. */
  lemma TwoDigits(n: nat)
    requires n < 100
    ensures Digits(n, 2) == [Js.DigitChar(n / 10), Js.DigitChar(n % 10)]
    ensures 10 * Js.DigitValue(Digits(n, 2)[0]) + Js.DigitValue(Digits(n, 2)[1]) == n
  {
    var q, r := n / 10, n % 10;
    assert q < 10 && n == 10 * q + r;
    assert Digits(q, 1) == [Js.DigitChar(q)] by {
      assert q / 10 == 0 && q % 10 == q;
    }
    assert Js.DigitValue(Js.DigitChar(q)) == q;
    assert Js.DigitValue(Js.DigitChar(r)) == r;
  }

  lemma MonthText(month: int)
    requires 1 <= month <= 99
    ensures Js.PadStart(Js.IntToString(month), 2, '0') == Digits(month, 2)
    ensures 10 * Js.DigitValue(Digits(month, 2)[0]) + Js.DigitValue(Digits(month, 2)[1]) == month
  {
    TwoDigits(month);
    if month < 10 {
      var c := Js.DigitChar(month);
      assert Js.IntToString(month) == [c];
      assert month / 10 == 0 && month % 10 == month;
      assert Js.PadStart([c], 2, '0') == Js.Repeat('0', 1) + [c];
      assert Js.Repeat('0', 1) == [Js.DigitChar(0)];
    } else {
      assert Pow10(1) == 10 && Pow10(2) == 100;
      NatToStringIsDigits(month, 2);
    }
  }

  /** The shape both bounds have: a year, a dash, a two-character month and "-01". */
  lemma FirstOfMonthShape(y: string, p: string)
    ensures y + "-" + p + "-01" == y + (['-'] + (p + (['-'] + Digits(1, 2))))
  {
    assert Digits(1, 2) == "01";
    assert "-01" == ['-'] + "01";
  }

  lemma JanuaryShape(y: string)
    ensures y + "-01-01" == y + (['-'] + (Digits(1, 2) + (['-'] + Digits(1, 2))))
  {
    assert Digits(1, 2) == "01";
    assert "-01-01" == ['-'] + ("01" + (['-'] + "01"));
  }

  /** The shape of the `date()` check on a first-of-month text. */
  lemma DateOfFirstText(year: nat, month: nat)
    requires year < 10000 && 1 <= month <= 12
    requires 10 * Js.DigitValue(Digits(month, 2)[0]) + Js.DigitValue(Digits(month, 2)[1]) == month
    ensures DateOfFirst(DateText(year, month, 1)) == Some(DateText(year, month, 1))
  {
    var s := DateText(year, month, 1);
    assert s[..4] == Digits(year, 4);
    assert s[4] == '-' && s[5] == Digits(month, 2)[0] && s[6] == Digits(month, 2)[1];
    assert s[|s| - 3..] == ['-'] + Digits(1, 2);
  }

  /** For a four-digit year and a month from 1 to 12 the window's start is a real date. */
  lemma MonthStartBound(year: int, month: int)
    requires 1000 <= year <= 9999 && 1 <= month <= 12
    ensures DateOfFirst(MonthStart(year, month)) == Some(DateText(year, month, 1))
  {
    YearText(year);
    MonthText(month);
    FirstOfMonthShape(Js.IntToString(year), Js.PadStart(Js.IntToString(month), 2, '0'));
    DateOfFirstText(year, month);
  }

  /** ... and its end is the first of the next month, January of the next year after December. */
  lemma MonthEndBound(year: int, month: int)
    requires 1000 <= year <= 9999 && 1 <= month <= 12 && (year < 9999 || month < 12)
    ensures month < 12 ==> DateOfFirst(MonthEnd(year, month)) == Some(DateText(year, month + 1, 1))
    ensures month == 12 ==> DateOfFirst(MonthEnd(year, month)) == Some(DateText(year + 1, 1, 1))
  {
    if month < 12 {
      YearText(year);
      MonthText(month + 1);
      FirstOfMonthShape(Js.IntToString(year), Js.PadStart(Js.IntToString(month + 1), 2, '0'));
      DateOfFirstText(year, month + 1);
    } else {
      YearText(year + 1);
      MonthText(1);
      JanuaryShape(Js.IntToString(year + 1));
      DateOfFirstText(year + 1, 1);
    }
  }

  /**
    The half-open window [start, end) is exactly the calendar month: for a four-digit year an
    event is listed iff it falls in that year and month, December included.
  */
  lemma MonthWindowIsCalendarMonth(d: DateTime, year: int, month: int)
    requires 1000 <= year <= 9999 && 1 <= month <= 12 && (year < 9999 || month < 12)
    requires EventDay(d).Some?
    ensures InMonthWindow(d, year, month) <==> d.year == year && d.month == month
  {
    MonthStartBound(year, month);
    MonthEndBound(year, month);
    if month < 12 {
      WindowBetween(d, year, month, DateText(year, month, 1), DateText(year, month + 1, 1));
      WindowFields(d, year, month, year, month + 1);
    } else {
      WindowBetween(d, year, month, DateText(year, month, 1), DateText(year + 1, 1, 1));
      WindowFields(d, year, month, year + 1, 1);
    }
  }

  lemma WindowFields(d: DateTime, year: nat, month: nat, ny: nat, nm: nat)
    requires EventDay(d).Some? && year < 10000 && ny < 10000 && 1 <= month <= 12 && 1 <= nm <= 12
    requires (ny == year && nm == month + 1) || (ny == year + 1 && month == 12 && nm == 1)
    ensures (Sql.CompareText(EventDay(d).value, DateText(year, month, 1)) >= 0
             && Sql.CompareText(EventDay(d).value, DateText(ny, nm, 1)) < 0)
        <==> d.year == year && d.month == month
  {
    CompareDateText(d.year, d.month, d.day, year, month, 1);
    CompareDateText(d.year, d.month, d.day, ny, nm, 1);
  }

  lemma WindowBetween(d: DateTime, year: int, month: int, start: string, end: string)
    requires DateOfFirst(MonthStart(year, month)) == Some(start)
    requires DateOfFirst(MonthEnd(year, month)) == Some(end)
    requires EventDay(d).Some?
    ensures InMonthWindow(d, year, month) <==>
      Sql.CompareText(EventDay(d).value, start) >= 0 && Sql.CompareText(EventDay(d).value, end) < 0
  {
  }

  /** Where the month's text sits in the start bound of a four-digit year. */
  lemma MonthStartLayout(year: int, month: int)
    requires 1000 <= year <= 9999
    ensures var p := Js.PadStart(Js.IntToString(month), 2, '0');
      var s := MonthStart(year, month);
      |p| >= 2 && |s| == 8 + |p| && s[5] == p[0] && s[6] == p[1]
  {
    var y := Js.IntToString(year);
    var p := Js.PadStart(Js.IntToString(month), 2, '0');
    YearText(year);
    FirstOfMonthShape(y, p);
    assert MonthStart(year, month) == y + (['-'] + (p + (['-'] + Digits(1, 2))));
  }

  /** For a month outside 1..12 the start bound is no date, so `date(?)` is NULL. */
  lemma BadMonthStartIsNull(year: int, month: int)
    requires 1000 <= year <= 9999 && (month < 1 || month > 12)
    ensures DateOfFirst(MonthStart(year, month)).None?
  {
    if month < 0 {
      NegativeMonthStart(year, month);
    } else if month == 0 {
      ZeroMonthStart(year);
    } else if month < 100 {
      TwoDigitMonthStart(year, month);
    } else {
      LongMonthStart(year, month);
    }
  }

  /** A negative month puts its minus sign where the month's first digit belongs. */
  lemma NegativeMonthStart(year: int, month: int)
    requires 1000 <= year <= 9999 && month < 0
    ensures DateOfFirst(MonthStart(year, month)).None?
  {
    MonthStartLayout(year, month);
    NegativeMonthText(month);
  }

  /** Month 0 is written "00", which is no month. */
  lemma ZeroMonthStart(year: int)
    requires 1000 <= year <= 9999
    ensures DateOfFirst(MonthStart(year, 0)).None?
  {
    MonthStartLayout(year, 0);
    var s := MonthStart(year, 0);
    assert Js.IntToString(0) == "0";
    assert Js.PadStart("0", 2, '0') == "00";
    assert 10 * Js.DigitValue(s[5]) + Js.DigitValue(s[6]) == 0;
  }

  /** A month from 13 to 99 is written with two digits that read back as more than 12. */
  lemma TwoDigitMonthStart(year: int, month: int)
    requires 1000 <= year <= 9999 && 12 < month < 100
    ensures DateOfFirst(MonthStart(year, month)).None?
  {
    MonthStartLayout(year, month);
    var s := MonthStart(year, month);
    MonthText(month);
    assert 10 * Js.DigitValue(s[5]) + Js.DigitValue(s[6]) == month;
  }

  /** A month of three or more digits makes the text too long for a date. */
  lemma LongMonthStart(year: int, month: int)
    requires 1000 <= year <= 9999 && month >= 100
    ensures DateOfFirst(MonthStart(year, month)).None?
  {
    MonthStartLayout(year, month);
    LongMonthText(month);
  }

  lemma NegativeMonthText(month: int)
    requires month < 0
    ensures Js.PadStart(Js.IntToString(month), 2, '0')[0] == '-'
  {
    assert Js.IntToString(month) == "-" + Js.NatToString(-month);
  }

  lemma LongMonthText(month: int)
    requires month >= 100
    ensures |Js.PadStart(Js.IntToString(month), 2, '0')| >= 3
  {
    assert |Js.NatToString(month / 10)| >= 2;
  }

  /** A month outside 1..12 gives a start that `date()` rejects, so nothing is listed. */
  lemma MonthOutOfRangeListsNothing(d: DateTime, year: int, month: int)
    requires 1000 <= year <= 9999 && (month < 1 || month > 12)
    ensures !InMonthWindow(d, year, month)
  {
    BadMonthStartIsNull(year, month);
  }

  /** One row of the calendar query. */
  datatype CalendarEvent = CalendarEvent(
    eventId: Id, event: EventRow, minimumTierName: Option<string>, tierOrder: Option<int>,
    attendeeCount: nat)

  /** The attendee_count subquery: attending RSVPs for the event, whether or not the member exists. */
  function AttendeeCount(rsvps: map<(Id, Id), RsvpRow>, eventId: Id): nat {
    |AttendingRsvps(rsvps, eventId)|
  }

  function AttendingRsvps(rsvps: map<(Id, Id), RsvpRow>, eventId: Id): (s: set<(Id, Id)>)
    ensures forall k :: k in s <==> k in rsvps && k.0 == eventId && rsvps[k].status == Attending
  {
    set k | k in rsvps.Keys && k.0 == eventId && rsvps[k].status == Attending
  }

  function CalendarEntry(tiers: map<Id, TierRow>, rsvps: map<(Id, Id), RsvpRow>, events: map<Id, EventRow>,
                         eventId: Id): (c: CalendarEvent)
    requires eventId in events
    ensures c.eventId == eventId && c.event == events[eventId]
    ensures c.attendeeCount == |AttendingRsvps(rsvps, eventId)|
    ensures var t := events[eventId].minimumTierId;
      c.tierOrder.Some? <==> t.Some? && t.value in tiers
  {
    var e := events[eventId];
    var tier := if e.minimumTierId.Some? && e.minimumTierId.value in tiers
                then Some(tiers[e.minimumTierId.value]) else None;
    CalendarEvent(eventId, e, if tier.Some? then Some(tier.value.name) else None,
                  if tier.Some? then Some(tier.value.sortOrder) else None,
                  AttendeeCount(rsvps, eventId))
  }

  /** `ORDER BY e.event_date`: the stored date-time text, ordered as its calendar fields. */
  function DateKey(events: map<Id, EventRow>): Id -> seq<Sql.Value> {
    e => if e in events then
           var d := events[e].eventDate;
           [Sql.Int(d.year), Sql.Int(d.month), Sql.Int(d.day), Sql.Int(d.hour), Sql.Int(d.minute)]
         else []
  }

  /** The events of the month window, each once, by date. */
  ghost function MonthEventIds(events: map<Id, EventRow>, year: int, month: int): (r: seq<Id>)
    ensures Distinct(r) && forall i :: 0 <= i < |r| ==> r[i] in events
    ensures forall e :: e in r <==> e in MonthEvents(events, year, month)
    ensures Sql.SortedBy(r, DateKey(events))
  {
    Sql.OrderBy(MonthEvents(events, year, month), DateKey(events))
  }

  /** The events the WHERE clause of `getByMonth` keeps. */
  function MonthEvents(events: map<Id, EventRow>, year: int, month: int): (s: set<Id>)
    ensures forall e :: e in s <==> e in events && InMonthWindow(events[e].eventDate, year, month)
  {
    set e | e in events.Keys && InMonthWindow(events[e].eventDate, year, month)
  }

  /** `Event.getByMonth(year, month)`. */
  ghost function GetByMonth(tiers: map<Id, TierRow>, rsvps: map<(Id, Id), RsvpRow>,
                            events: map<Id, EventRow>, year: int, month: int): (r: seq<CalendarEvent>)
    ensures var ids := MonthEventIds(events, year, month);
      |r| == |ids| && forall i :: 0 <= i < |r| ==> r[i] == CalendarEntry(tiers, rsvps, events, ids[i])
  {
    CalendarEntries(tiers, rsvps, events, MonthEventIds(events, year, month))
  }

  /** The calendar rows of the listed events, in the order given. */
  function CalendarEntries(tiers: map<Id, TierRow>, rsvps: map<(Id, Id), RsvpRow>,
                           events: map<Id, EventRow>, ids: seq<Id>): (r: seq<CalendarEvent>)
    requires forall i :: 0 <= i < |ids| ==> ids[i] in events
    ensures |r| == |ids| && forall i :: 0 <= i < |r| ==> r[i] == CalendarEntry(tiers, rsvps, events, ids[i])
  {
    seq(|ids|, i requires 0 <= i < |ids| => CalendarEntry(tiers, rsvps, events, ids[i]))
  }

  /** The calendar lists an event iff it is in the month window. */
  lemma GetByMonthListsTheWindow(tiers: map<Id, TierRow>, rsvps: map<(Id, Id), RsvpRow>,
                                 events: map<Id, EventRow>, year: int, month: int, e: Id)
    ensures var r := GetByMonth(tiers, rsvps, events, year, month);
      (exists i :: 0 <= i < |r| && r[i].eventId == e)
      <==> e in events && InMonthWindow(events[e].eventDate, year, month)
  {
    var ids := MonthEventIds(events, year, month);
    assert e in ids <==> e in MonthEvents(events, year, month);
    var r := GetByMonth(tiers, rsvps, events, year, month);
    if e in ids {
      var i :| 0 <= i < |ids| && ids[i] == e;
      assert r[i].eventId == e;
    }
    if exists i :: 0 <= i < |r| && r[i].eventId == e {
      var i :| 0 <= i < |r| && r[i].eventId == e;
      assert ids[i] in ids;
    }
  }

  /** For a four-digit year and a real month the calendar lists exactly that month's events. */
  lemma GetByMonthListsTheMonth(tiers: map<Id, TierRow>, rsvps: map<(Id, Id), RsvpRow>,
                                events: map<Id, EventRow>, year: int, month: int, e: Id)
    requires 1000 <= year <= 9999 && 1 <= month <= 12 && (year < 9999 || month < 12)
    requires e in events && EventDay(events[e].eventDate).Some?
    ensures var r := GetByMonth(tiers, rsvps, events, year, month);
      (exists i :: 0 <= i < |r| && r[i].eventId == e)
      <==> events[e].eventDate.year == year && events[e].eventDate.month == month
  {
    GetByMonthListsTheWindow(tiers, rsvps, events, year, month, e);
    MonthWindowIsCalendarMonth(events[e].eventDate, year, month);
  }
}
