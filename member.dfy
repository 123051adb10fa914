/**
  Member records of src/models/Member.js: creation from the eleven registration fields, the
  partial update driven by the `fieldMapping` table, the member's current tier and the
  progress overview.
*/
module MemberModel {
  import opened Common
  import opened Schema
  import Js
  import Sql
  import TierModel

  /** The key of `memberData` that carries each column (the `fieldMapping` keys, plus `userId`). */
  function MemberKey(c: MemberColumn): string {
    match c
    case UserId => "userId"
    case FirstName => "firstName"
    case LastName => "lastName"
    case Address => "address"
    case City => "city"
    case State => "state"
    case Zip => "zip"
    case Phone => "phone"
    case Callsign => "callsign"
    case County => "county"
    case FccLicensePath => "fccLicensePath"
    case ProfilePhotoPath => "profilePhotoPath"
    case LicenseClass => "licenseClass"
    case Title => "title"
    case Status => "status"
    case BackgroundCheck => "backgroundCheck"
    case BackgroundCheckDate => "backgroundCheckDate"
    case EmergencyContactName => "emergencyContactName"
    case EmergencyContactRelationship => "emergencyContactRelationship"
    case EmergencyContactPhone => "emergencyContactPhone"
    case EmergencyContactEmail => "emergencyContactEmail"
    case EmergencyPower => "emergencyPower"
    case EmergencyPowerType => "emergencyPowerType"
    case HfCapable => "hfCapable"
    case HfPower => "hfPower"
    case VhfUhfCapable => "vhfUhfCapable"
    case VhfUhfPower => "vhfUhfPower"
    case WinlinkCapable => "winlinkCapable"
    case SatelliteInternet => "satelliteInternet"
    case MobileStation => "mobileStation"
    case PortableStation => "portableStation"
    case AprsCapable => "aprsCapable"
    case DstarCapable => "dstarCapable"
    case DmrCapable => "dmrCapable"
    case FusionCapable => "fusionCapable"
    case PacketRadio => "packetRadio"
    case SstvCapable => "sstvCapable"
    case RttyCapable => "rttyCapable"
    case Ft8Capable => "ft8Capable"
    case Js8callCapable => "js8callCapable"
    case GoKitReady => "goKitReady"
    case TowerAntennaHeight => "towerAntennaHeight"
    case BackupBatteries => "backupBatteries"
    case SolarPower => "solarPower"
    case MeshNetwork => "meshNetwork"
    case FirstnetDevice => "firstnetDevice"
    case CapabilitiesNotes => "capabilitiesNotes"
    case AdminNotes => "adminNotes"
  }

  /** The columns `create` inserts. */
  const CreateColumns: set<MemberColumn> :=
    {UserId, FirstName, LastName, Address, City, State, Zip, Phone, Callsign, County, FccLicensePath}

  /**
    The columns of `fieldMapping`, in its order. (Written as a few short displays joined
    together, which the verifier searches more cheaply.)
  */
  const UpdateColumns: seq<MemberColumn> :=
      [FirstName, LastName, Address, City, State, Zip, Phone, Callsign]
    + [County, FccLicensePath, ProfilePhotoPath, LicenseClass, Title, Status, BackgroundCheck]
    + [BackgroundCheckDate, EmergencyContactName, EmergencyContactRelationship]
    + [EmergencyContactPhone, EmergencyContactEmail, EmergencyPower, EmergencyPowerType]
    + [HfCapable, HfPower, VhfUhfCapable, VhfUhfPower, WinlinkCapable, SatelliteInternet]
    + [MobileStation, PortableStation, AprsCapable, DstarCapable, DmrCapable, FusionCapable]
    + [PacketRadio, SstvCapable, RttyCapable, Ft8Capable, Js8callCapable, GoKitReady]
    + [TowerAntennaHeight, BackupBatteries, SolarPower, MeshNetwork, FirstnetDevice]
    + [CapabilitiesNotes, AdminNotes]

  /**
    `fieldMapping` names 47 columns: every `MemberColumn` but user_id. The columns of
    `OtherMemberColumn` are not in it at all.
  */
  lemma UpdateColumnsAreAllButUserId()
    ensures |UpdateColumns| == 47
    ensures forall c :: c in UpdateColumns <==> c != UserId
  {
  }

  /** A `memberData` object: property names to values; a missing property reads as undefined. */
  type MemberData = map<string, Js.Value>

  function Arg(data: MemberData, key: string): Js.Value {
    if key in data then data[key] else Js.Undefined
  }

  /** `memberData[key] !== undefined` */
  predicate Defined(data: MemberData, key: string) {
    Arg(data, key) != Js.Undefined
  }

  /** How the sqlite3 driver binds a JavaScript value: undefined and null as NULL, booleans as 1/0. */
  function Bind(v: Js.Value): Sql.Value {
    match v
    case Undefined => Sql.Null
    case Null => Sql.Null
    case Bool(b) => Sql.Int(if b then 1 else 0)
    case Number(n) => Sql.Int(n)
    case Str(s) => Sql.Text(s)
  }

  // ---------------------------------------------------------------------------------------
  // Constraints
  // ---------------------------------------------------------------------------------------

  /** The NOT NULL columns of members. */
  predicate NotNullColumn(c: MemberColumn) {
    c == UserId || c == FirstName || c == LastName || c == Callsign
  }

  /**
    Storing `row` beside the rows `others` breaks a constraint: a NOT NULL column is NULL, or
    user_id or callsign equals that of another row.
  */
  predicate RowViolates(others: map<Id, MemberRow>, row: MemberRow) {
    || Column(row, UserId) == Sql.Null || Column(row, FirstName) == Sql.Null
    || Column(row, LastName) == Sql.Null || Column(row, Callsign) == Sql.Null
    || (exists id :: id in others && Column(others[id], UserId) == Column(row, UserId))
    || (exists id :: id in others && Column(others[id], Callsign) == Column(row, Callsign))
  }

  lemma NotNullColumnsChecked(others: map<Id, MemberRow>, row: MemberRow, c: MemberColumn)
    requires NotNullColumn(c) && Column(row, c) == Sql.Null
    ensures RowViolates(others, row)
  {
  }

  // ---------------------------------------------------------------------------------------
  // create
  // ---------------------------------------------------------------------------------------

  /** The row `create` inserts: the eleven listed properties, every other column at its default. */
  function NewMemberRow(data: MemberData, now: Timestamp): (row: MemberRow)
    ensures forall c {:trigger Column(row, c)} ::
      Column(row, c) == (if c in CreateColumns then Bind(Arg(data, MemberKey(c))) else MemberColumnDefault(c))
    ensures forall c {:trigger OtherColumn(row, c)} :: OtherColumn(row, c) == OtherMemberColumnDefault(c)
    ensures row.createdAt == now && row.updatedAt == now
  {
    MemberRow(map c | c in CreateColumns :: Bind(Arg(data, MemberKey(c))), map[], now, now)
  }

  /** A new member has no ID card (has_id_card DEFAULT 0) and no coordinates. */
  lemma NewMemberHasNoIdCard(data: MemberData, now: Timestamp)
    ensures OtherColumn(NewMemberRow(data, now), HasIdCard) == Sql.Int(0)
    ensures OtherColumn(NewMemberRow(data, now), Latitude) == Sql.Null
    ensures OtherColumn(NewMemberRow(data, now), Longitude) == Sql.Null
  {
  }

  /** Properties other than the eleven that `create` destructures make no difference. */
  lemma CreateUsesOnlyItsColumns(data1: MemberData, data2: MemberData, now: Timestamp)
    requires forall c :: c in CreateColumns ==> Arg(data1, MemberKey(c)) == Arg(data2, MemberKey(c))
    ensures NewMemberRow(data1, now) == NewMemberRow(data2, now)
  {
    var r1, r2 := NewMemberRow(data1, now), NewMemberRow(data2, now);
    assert r1.columns.Keys == r2.columns.Keys;
    assert forall c :: c in r1.columns ==> r1.columns[c] == Column(r1, c);
  }

  /** `Member.create`: inserts the new row under the next id, or fails on a constraint. */
  method Create(db: Database, data: MemberData, now: Timestamp) returns (r: Result<Id>)
    modifies db`members, db`memberSeq
    ensures r.ConstraintViolation? <==> RowViolates(old(db.members), NewMemberRow(data, now))
    ensures r.Ok? ==> (r.value == old(db.memberSeq) && db.memberSeq == old(db.memberSeq) + 1
      && db.members == old(db.members)[r.value := NewMemberRow(data, now)])
    ensures r.ConstraintViolation? ==> db.members == old(db.members) && db.memberSeq == old(db.memberSeq)
    ensures old(db.Valid()) ==> db.Valid()
    ensures old(db.Valid()) && r.Ok? ==> r.value !in old(db.members)
  {
    var row := NewMemberRow(data, now);
    if RowViolates(db.members, row) {
      return ConstraintViolation;
    }
    r := Ok(db.memberSeq);
    db.members := db.members[db.memberSeq := row];
    db.memberSeq := db.memberSeq + 1;
  }

  // ---------------------------------------------------------------------------------------
  // update
  // ---------------------------------------------------------------------------------------

  /**
    The `column = ?` assignments `update` collects from `cols`: one for each column whose
    property is defined, in the order of `cols`.
  */
  function Assignments(cols: seq<MemberColumn>, data: MemberData): seq<(MemberColumn, Sql.Value)>
  {
    if cols == [] then []
    else
      var init := Assignments(cols[..|cols| - 1], data);
      var c := cols[|cols| - 1];
      if Defined(data, MemberKey(c)) then init + [(c, Bind(Arg(data, MemberKey(c))))] else init
  }

  /** The SET list applied to a row's columns, left to right. */
  function Assign(columns: map<MemberColumn, Sql.Value>, pairs: seq<(MemberColumn, Sql.Value)>)
    : map<MemberColumn, Sql.Value>
  {
    if pairs == [] then columns
    else Assign(columns, pairs[..|pairs| - 1])[pairs[|pairs| - 1].0 := pairs[|pairs| - 1].1]
  }

  /** A mapped column with a defined property takes its value; every other column is kept. */
  lemma {:induction false} AssignmentsEffect(columns: map<MemberColumn, Sql.Value>,
                                             cols: seq<MemberColumn>, data: MemberData, c: MemberColumn)
    ensures var after := Assign(columns, Assignments(cols, data));
      if c in cols && Defined(data, MemberKey(c))
      then c in after && after[c] == Bind(Arg(data, MemberKey(c)))
      else (c in after <==> c in columns) && (c in columns ==> after[c] == columns[c])
  {
    if cols != [] {
      var init := cols[..|cols| - 1];
      var last := cols[|cols| - 1];
      var a := Assignments(init, data);
      AssignmentsEffect(columns, init, data, c);
      assert cols == init + [last];
      if Defined(data, MemberKey(last)) {
        var p := (last, Bind(Arg(data, MemberKey(last))));
        assert (a + [p])[..|a + [p]| - 1] == a;
      }
    }
  }

  /** No assignment is collected exactly when no mapped property is defined. */
  lemma {:induction false} AssignmentsEmpty(cols: seq<MemberColumn>, data: MemberData)
    ensures Assignments(cols, data) == [] <==> forall c :: c in cols ==> !Defined(data, MemberKey(c))
  {
    if cols != [] {
      var init := cols[..|cols| - 1];
      AssignmentsEmpty(init, data);
      assert cols == init + [cols[|cols| - 1]];
    }
  }

  /** Only the mapped properties are read. */
  lemma {:induction false} AssignmentsReadOnlyMappedKeys(cols: seq<MemberColumn>, data1: MemberData,
                                                         data2: MemberData)
    requires forall c :: c in cols ==> Arg(data1, MemberKey(c)) == Arg(data2, MemberKey(c))
    ensures Assignments(cols, data1) == Assignments(cols, data2)
  {
    if cols != [] {
      var init := cols[..|cols| - 1];
      assert forall c :: c in init ==> c in cols;
      AssignmentsReadOnlyMappedKeys(init, data1, data2);
    }
  }

  /**
    members after `update(memberId, memberData)`: nothing happens when no mapped property is
    defined or the id is unknown; otherwise the row takes the assignments and a fresh
    updated_at, unless that breaks a constraint.
  */
  function UpdateMember(members: map<Id, MemberRow>, memberId: Id, data: MemberData, now: Timestamp)
    : Result<map<Id, MemberRow>>
  {
    if Assignments(UpdateColumns, data) == [] || memberId !in members then Ok(members)
    else
      var updated := UpdatedRow(members[memberId], data, now);
      if RowViolates(members - {memberId}, updated) then ConstraintViolation
      else Ok(members[memberId := updated])
  }

  /** The row the UPDATE writes: the collected assignments and a fresh updated_at. */
  function UpdatedRow(row: MemberRow, data: MemberData, now: Timestamp): MemberRow {
    row.(columns := Assign(row.columns, Assignments(UpdateColumns, data)), updatedAt := now)
  }

  /**
    A successful update writes exactly the mapped columns whose property is defined, bumps
    updated_at, and changes no other row.
  */
  lemma UpdateWritesDefinedColumns(members: map<Id, MemberRow>, memberId: Id, data: MemberData,
                                   now: Timestamp)
    requires memberId in members
    requires exists c :: c in UpdateColumns && Defined(data, MemberKey(c))
    requires UpdateMember(members, memberId, data, now).Ok?
    ensures var after := UpdateMember(members, memberId, data, now).value;
      && after.Keys == members.Keys
      && (forall id :: id in members && id != memberId ==> after[id] == members[id])
      && after[memberId].updatedAt == now
      && after[memberId].createdAt == members[memberId].createdAt
      && (forall c :: Column(after[memberId], c)
            == if c in UpdateColumns && Defined(data, MemberKey(c))
               then Bind(Arg(data, MemberKey(c))) else Column(members[memberId], c))
  {
    AssignmentsEmpty(UpdateColumns, data);
    var after := UpdateMember(members, memberId, data, now).value;
    assert after == members[memberId := UpdatedRow(members[memberId], data, now)];
    forall c ensures Column(after[memberId], c)
        == if c in UpdateColumns && Defined(data, MemberKey(c))
           then Bind(Arg(data, MemberKey(c))) else Column(members[memberId], c)
    {
      AssignmentsEffect(members[memberId].columns, UpdateColumns, data, c);
    }
  }

  /** With no mapped property defined, `update` returns early: nothing changes, not even updated_at. */
  lemma UpdateWithNothingDefinedIsNoop(members: map<Id, MemberRow>, memberId: Id, data: MemberData,
                                       now: Timestamp)
    requires forall c :: c in UpdateColumns ==> !Defined(data, MemberKey(c))
    ensures UpdateMember(members, memberId, data, now) == Ok(members)
  {
    AssignmentsEmpty(UpdateColumns, data);
  }

  /**
    Properties outside `fieldMapping` are ignored: `userId`, and `latitude` and `longitude`,
    which the profile route passes although they are columns of members.
  */
  lemma UpdateIgnoresUnmappedKeys(members: map<Id, MemberRow>, memberId: Id, data1: MemberData,
                                  data2: MemberData, now: Timestamp)
    requires forall c :: c in UpdateColumns ==> Arg(data1, MemberKey(c)) == Arg(data2, MemberKey(c))
    ensures UpdateMember(members, memberId, data1, now) == UpdateMember(members, memberId, data2, now)
  {
    AssignmentsReadOnlyMappedKeys(UpdateColumns, data1, data2);
  }

  /**
    The columns outside `fieldMapping` are never written by `update`: a member is never moved
    to another user, and the coordinates and ID-card data stay as they were.
  */
  lemma UpdateKeepsUnmappedColumns(members: map<Id, MemberRow>, memberId: Id, data: MemberData,
                                   now: Timestamp)
    requires memberId in members && UpdateMember(members, memberId, data, now).Ok?
    ensures var after := UpdateMember(members, memberId, data, now).value[memberId];
      Column(after, UserId) == Column(members[memberId], UserId)
      && after.others == members[memberId].others
  {
    AssignmentsEffect(members[memberId].columns, UpdateColumns, data, UserId);
    UpdateColumnsAreAllButUserId();
    if Assignments(UpdateColumns, data) != [] {
      var updated := UpdatedRow(members[memberId], data, now);
      assert UpdateMember(members, memberId, data, now).value[memberId] == updated;
      assert Column(updated, UserId) == Column(members[memberId], UserId);
    }
  }

  /** Pairs up the `fields` and `values` arrays `update` builds. */
  function PairUp(fields: seq<MemberColumn>, values: seq<Sql.Value>): (r: seq<(MemberColumn, Sql.Value)>)
    requires |fields| == |values|
    ensures |r| == |fields| && forall k :: 0 <= k < |r| ==> r[k] == (fields[k], values[k])
  {
    seq(|fields|, k requires 0 <= k < |fields| => (fields[k], values[k]))
  }

  /** Appending one pair to both arrays appends that pair to their pairing. */
  lemma PairUpSnoc(fields: seq<MemberColumn>, values: seq<Sql.Value>, c: MemberColumn, v: Sql.Value)
    requires |fields| == |values|
    ensures PairUp(fields + [c], values + [v]) == PairUp(fields, values) + [(c, v)]
  {
  }

  /** One more column of `cols` adds its assignment exactly when its property is defined. */
  lemma AssignmentsSnoc(cols: seq<MemberColumn>, i: nat, data: MemberData)
    requires i < |cols|
    ensures var c := cols[i];
      Assignments(cols[..i + 1], data)
        == if Defined(data, MemberKey(c)) then Assignments(cols[..i], data) + [(c, Bind(Arg(data, MemberKey(c))))]
           else Assignments(cols[..i], data)
  {
    assert cols[..i + 1][..i] == cols[..i];
  }

  /** The loop of `Member.update`: pushes a field and a value for each defined mapped property. */
  method CollectAssignments(data: MemberData) returns (fields: seq<MemberColumn>, values: seq<Sql.Value>)
    ensures |fields| == |values| && PairUp(fields, values) == Assignments(UpdateColumns, data)
  {
    fields, values := [], [];
    for i := 0 to |UpdateColumns|
      invariant |fields| == |values|
      invariant PairUp(fields, values) == Assignments(UpdateColumns[..i], data)
    {
      var c := UpdateColumns[i];
      AssignmentsSnoc(UpdateColumns, i, data);
      var key := MemberKey(c);
      if Defined(data, key) {
        PairUpSnoc(fields, values, c, Bind(Arg(data, key)));
        fields := fields + [c];
        values := values + [Bind(Arg(data, key))];
      }
    }
    assert UpdateColumns[..|UpdateColumns|] == UpdateColumns;
  }

  /** `Member.update`: collects the assignments, returns early without any, else runs the UPDATE. */
  method Update(db: Database, memberId: Id, data: MemberData, now: Timestamp) returns (r: Result<()>)
    modifies db`members
    ensures var expected := UpdateMember(old(db.members), memberId, data, now);
      (r.Ok? <==> expected.Ok?) && db.members == (if expected.Ok? then expected.value else old(db.members))
  {
    var fields, values := CollectAssignments(data);
    if |fields| == 0 {
      return Ok(());
    }
    if memberId !in db.members {
      return Ok(());
    }
    var row := db.members[memberId];
    var updated := row.(columns := Assign(row.columns, PairUp(fields, values)), updatedAt := now);
    if RowViolates(db.members - {memberId}, updated) {
      return ConstraintViolation;
    }
    db.members := db.members[memberId := updated];
    r := Ok(());
  }

  // ---------------------------------------------------------------------------------------
  // getCurrentTier
  // ---------------------------------------------------------------------------------------

  /** The tiers the member has an achieved=1 row for (the JOIN drops rows of missing tiers). */
  function AchievedTiers(tiers: map<Id, TierRow>, memberTiers: map<(Id, Id), MemberTierRow>, memberId: Id)
    : (s: set<Id>)
    ensures forall t :: t in s <==> t in tiers && TierModel.Achieved(memberTiers, memberId, t)
  {
    set t | t in tiers.Keys && TierModel.Achieved(memberTiers, memberId, t)
  }

  /** A tier of highest sort_order among `s`. */
  ghost function HighestTier(tiers: map<Id, TierRow>, s: set<Id>): (top: Id)
    requires s != {} && s <= tiers.Keys
    ensures top in s
    ensures forall t :: t in s ==> tiers[t].sortOrder <= tiers[top].sortOrder
    decreases |s|
  {
    var t :| t in s;
    if s == {t} then t
    else
      var rest := HighestTier(tiers, s - {t});
      if tiers[t].sortOrder >= tiers[rest].sortOrder then t else rest
  }

  /**
    `Member.getCurrentTier`: an achieved tier of the highest sort_order, or null when the
    member has achieved none (which of several tiers sharing that sort_order is unspecified).
  */
  ghost function GetCurrentTier(tiers: map<Id, TierRow>, memberTiers: map<(Id, Id), MemberTierRow>,
                                memberId: Id): (r: Option<Id>)
    ensures r.None? <==> AchievedTiers(tiers, memberTiers, memberId) == {}
    ensures r.Some? ==> r.value in tiers && TierModel.Achieved(memberTiers, memberId, r.value)
    ensures r.Some? ==> forall t :: t in tiers && TierModel.Achieved(memberTiers, memberId, t) ==>
      tiers[t].sortOrder <= tiers[r.value].sortOrder
  {
    var s := AchievedTiers(tiers, memberTiers, memberId);
    if s == {} then None else Some(HighestTier(tiers, s))
  }

  // ---------------------------------------------------------------------------------------
  // getWithProgress
  // ---------------------------------------------------------------------------------------

  /** One row of the tier-progress query. */
  datatype TierProgress = TierProgress(
    tierId: Id, tier: TierRow, achieved: Option<Flag>, achievedAt: Option<Timestamp>,
    totalTasks: nat, completedTasks: nat)

  /** One row of the achievements query (the joined display names are not modelled). */
  datatype AchievementProgress = AchievementProgress(
    achievementId: Id, achievement: SpecialAchievementRow, status: MemberAchievementRow)

  datatype MemberProgress = MemberProgress(
    memberId: Id, member: MemberRow, email: Option<string>, tiers: seq<TierProgress>,
    achievements: seq<AchievementProgress>)

  /**
    The grouped row of a tier: COUNT(tasks.id) counts the tier's tasks and COUNT of verified=1
    counts its verified tasks; the LEFT JOINs keep a tier with no tasks as a row of zeros.
  */
  function TierProgressOf(tasks: map<Id, TaskRow>, memberTasks: map<(Id, Id), MemberTaskRow>,
                          memberTiers: map<(Id, Id), MemberTierRow>, tiers: map<Id, TierRow>,
                          memberId: Id, tierId: Id): (p: TierProgress)
    requires tierId in tiers
    ensures p.tierId == tierId && p.tier == tiers[tierId]
  {
    var taskIds := TierModel.TierTaskIds(tasks, tierId);
    var key := (memberId, tierId);
    TierProgress(tierId, tiers[tierId],
                 if key in memberTiers then Some(memberTiers[key].achieved) else None,
                 if key in memberTiers then memberTiers[key].achievedAt else None,
                 |taskIds|, |TierModel.VerifiedTaskIds(memberTasks, memberId, taskIds)|)
  }

  /**
    What a progress row shows: completed_tasks never exceeds total_tasks, total_tasks is 0
    exactly for a tier without tasks, and "all tasks done" (with at least one) is exactly the
    tier being fully verified.
  */
  lemma TierProgressMeaning(tasks: map<Id, TaskRow>, memberTasks: map<(Id, Id), MemberTaskRow>,
                            memberTiers: map<(Id, Id), MemberTierRow>, tiers: map<Id, TierRow>,
                            memberId: Id, tierId: Id)
    requires tierId in tiers
    ensures var p := TierProgressOf(tasks, memberTasks, memberTiers, tiers, memberId, tierId);
      && p.completedTasks <= p.totalTasks
      && (p.totalTasks == 0 <==> TierModel.TierTaskIds(tasks, tierId) == {})
      && ((p.completedTasks == p.totalTasks && p.totalTasks > 0)
          <==> TierModel.TierFullyVerified(tasks, memberTasks, memberId, tierId))
  {
    var taskIds := TierModel.TierTaskIds(tasks, tierId);
    TierModel.AllCompleteIffFullyVerified(tasks, memberTasks, memberId, tierId);
    TierModel.SubsetSize(TierModel.VerifiedTaskIds(memberTasks, memberId, taskIds), taskIds);
  }

  /** The achievement rows of the member whose special achievement exists (the INNER JOIN). */
  function HeldAchievements(specialAchievements: map<Id, SpecialAchievementRow>,
                            memberAchievements: map<(Id, Id), MemberAchievementRow>, memberId: Id)
    : (s: set<Id>)
    ensures forall a :: a in s <==> a in specialAchievements && (memberId, a) in memberAchievements
  {
    set a | a in specialAchievements.Keys && (memberId, a) in memberAchievements
  }

  function AchievementsOf(specialAchievements: map<Id, SpecialAchievementRow>,
                          memberAchievements: map<(Id, Id), MemberAchievementRow>, memberId: Id,
                          ids: seq<Id>): (r: seq<AchievementProgress>)
    requires forall a :: a in ids ==> a in specialAchievements && (memberId, a) in memberAchievements
    ensures |r| == |ids|
    ensures forall k :: 0 <= k < |r| ==> (r[k].achievementId == ids[k]
      && r[k].achievement == specialAchievements[ids[k]]
      && r[k].status == memberAchievements[(memberId, ids[k])])
  {
    seq(|ids|, k requires 0 <= k < |ids| =>
      AchievementProgress(ids[k], specialAchievements[ids[k]], memberAchievements[(memberId, ids[k])]))
  }

  function TierProgressRows(tasks: map<Id, TaskRow>, memberTasks: map<(Id, Id), MemberTaskRow>,
                            memberTiers: map<(Id, Id), MemberTierRow>, tiers: map<Id, TierRow>,
                            memberId: Id, ids: seq<Id>): (r: seq<TierProgress>)
    requires forall t :: t in ids ==> t in tiers
    ensures |r| == |ids|
    ensures forall k :: 0 <= k < |r| ==>
      r[k] == TierProgressOf(tasks, memberTasks, memberTiers, tiers, memberId, ids[k])
      && r[k].tierId == ids[k] && r[k].tier == tiers[ids[k]]
  {
    seq(|ids|, k requires 0 <= k < |ids| =>
      TierProgressOf(tasks, memberTasks, memberTiers, tiers, memberId, ids[k]))
  }

  /** The tier-progress query: one row per tier, in the order of `Tier.getAll`. */
  ghost function TierProgressList(tasks: map<Id, TaskRow>, memberTasks: map<(Id, Id), MemberTaskRow>,
                                  memberTiers: map<(Id, Id), MemberTierRow>, tiers: map<Id, TierRow>,
                                  memberId: Id): (r: seq<TierProgress>)
    ensures var ids := TierModel.GetAll(tiers);
      |r| == |ids| && forall k :: 0 <= k < |r| ==>
        r[k] == TierProgressOf(tasks, memberTasks, memberTiers, tiers, memberId, ids[k])
  {
    TierProgressRows(tasks, memberTasks, memberTiers, tiers, memberId, TierModel.GetAll(tiers))
  }

  /** Every tier has exactly one progress row, and the rows come by sort_order. */
  lemma TierProgressListsEveryTier(tasks: map<Id, TaskRow>, memberTasks: map<(Id, Id), MemberTaskRow>,
                                   memberTiers: map<(Id, Id), MemberTierRow>, tiers: map<Id, TierRow>,
                                   memberId: Id, t: Id)
    ensures var r := TierProgressList(tasks, memberTasks, memberTiers, tiers, memberId);
      && |r| == |tiers|
      && ((exists k :: 0 <= k < |r| && r[k].tierId == t) <==> t in tiers)
      && (forall i, j :: 0 <= i < j < |r| ==> r[i].tierId != r[j].tierId)
      && (forall i, j :: 0 <= i < j < |r| ==> r[i].tier.sortOrder <= r[j].tier.sortOrder)
  {
    var r := TierProgressList(tasks, memberTasks, memberTiers, tiers, memberId);
    var ids := TierModel.GetAll(tiers);
    assert forall k :: 0 <= k < |r| ==> r[k].tierId == ids[k] && r[k].tier == tiers[ids[k]];
    if t in tiers {
      var k :| 0 <= k < |ids| && ids[k] == t;
      assert r[k].tierId == t;
    }
  }

  /** The achievements query: the member's rows whose special achievement exists, in no set order. */
  ghost function AchievementList(specialAchievements: map<Id, SpecialAchievementRow>,
                                 memberAchievements: map<(Id, Id), MemberAchievementRow>, memberId: Id)
    : (r: seq<AchievementProgress>)
    ensures forall a :: ((exists k :: 0 <= k < |r| && r[k].achievementId == a)
      <==> a in specialAchievements && (memberId, a) in memberAchievements)
    ensures forall k :: 0 <= k < |r| ==> (r[k].achievementId in specialAchievements
      && r[k].status == memberAchievements[(memberId, r[k].achievementId)])
  {
    var held := Sql.Enumerate(HeldAchievements(specialAchievements, memberAchievements, memberId));
    var r := AchievementsOf(specialAchievements, memberAchievements, memberId, held);
    assert forall a :: a in specialAchievements && (memberId, a) in memberAchievements ==>
      exists k :: 0 <= k < |r| && r[k].achievementId == a by {
      forall a | a in specialAchievements && (memberId, a) in memberAchievements
        ensures exists k :: 0 <= k < |r| && r[k].achievementId == a
      {
        var k :| 0 <= k < |held| && held[k] == a;
        assert r[k].achievementId == a;
      }
    }
    assert forall k :: 0 <= k < |r| ==> held[k] in held;
    r
  }

  /** The email of the member's user (the LEFT JOIN on users), if there is one. */
  function MemberEmail(users: map<Id, UserRow>, member: MemberRow): Option<string> {
    match Column(member, UserId)
    case Int(u) => if u >= 0 && u in users then Some(users[u].email) else None
    case _ => None
  }

  /**
    `Member.getWithProgress`: null for an unknown member; otherwise the member with its
    email, the tier-progress rows and the achievements the member has a row for.
  */
  ghost function GetWithProgress(db: Database, memberId: Id): (r: Option<MemberProgress>)
    reads db
    ensures r.None? <==> memberId !in db.members
    ensures r.Some? ==> (r.value.member == db.members[memberId]
      && r.value.tiers == TierProgressList(db.tasks, db.memberTasks, db.memberTiers, db.tiers, memberId)
      && r.value.achievements
         == AchievementList(db.specialAchievements, db.memberAchievements, memberId))
  {
    if memberId !in db.members then None
    else
      var member := db.members[memberId];
      Some(MemberProgress(memberId, member, MemberEmail(db.users, member),
                          TierProgressList(db.tasks, db.memberTasks, db.memberTiers, db.tiers, memberId),
                          AchievementList(db.specialAchievements, db.memberAchievements, memberId)))
  }

  /**
    On the progress page a tier shows all its tasks done exactly when it is fully verified,
    and a tier with no tasks shows 0 of 0.
  */
  lemma ProgressShowsVerification(db: Database, memberId: Id, k: nat)
    requires GetWithProgress(db, memberId).Some?
    requires k < |GetWithProgress(db, memberId).value.tiers|
    ensures var row := GetWithProgress(db, memberId).value.tiers[k];
      && ((row.totalTasks > 0 && row.completedTasks == row.totalTasks)
          <==> TierModel.TierFullyVerified(db.tasks, db.memberTasks, memberId, row.tierId))
      && (row.totalTasks == 0 <==> TierModel.TierTaskIds(db.tasks, row.tierId) == {})
  {
    var row := GetWithProgress(db, memberId).value.tiers[k];
    TierProgressMeaning(db.tasks, db.memberTasks, db.memberTiers, db.tiers, memberId, row.tierId);
  }
}
