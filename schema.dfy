/**
  The tables the model layer reads and writes, as created by the migrations in
  src/database/migrate.js. Each table is a map keyed by its UNIQUE key, so "one row per key"
  holds by construction; column defaults are the migrations' DEFAULT clauses; the surrogate
  `id` column is kept only where a model function uses it.
*/
module Schema {
  import opened Common
  import Sql

  type Id = nat

  /** An abstract clock reading, standing for CURRENT_TIMESTAMP; later readings are larger. */
  type Timestamp = int

  /** An INTEGER column used as a boolean; the model code only ever writes 0 or 1. */
  type Flag = x: int | x == 0 || x == 1

  /** A calendar date and time of day as stored in `events.event_date`. */
  datatype DateTime = DateTime(year: nat, month: nat, day: nat, hour: nat, minute: nat)

  // users: only the columns the modelled code reads or writes.
  datatype UserRow = UserRow(email: string, isAdmin: Flag, currentChallenge: Option<string>)

  /** The columns of `members` that the model code names. */
  datatype MemberColumn =
    | UserId | FirstName | LastName | Address | City | State | Zip | Phone | Callsign | County
    | FccLicensePath | ProfilePhotoPath | LicenseClass | Title | Status | BackgroundCheck
    | BackgroundCheckDate | EmergencyContactName | EmergencyContactRelationship
    | EmergencyContactPhone | EmergencyContactEmail | EmergencyPower | EmergencyPowerType
    | HfCapable | HfPower | VhfUhfCapable | VhfUhfPower | WinlinkCapable | SatelliteInternet
    | MobileStation | PortableStation | AprsCapable | DstarCapable | DmrCapable | FusionCapable
    | PacketRadio | SstvCapable | RttyCapable | Ft8Capable | Js8callCapable | GoKitReady
    | TowerAntennaHeight | BackupBatteries | SolarPower | MeshNetwork | FirstnetDevice
    | CapabilitiesNotes | AdminNotes

  /** The DEFAULT clause of each member column (NULL where there is none). */
  function MemberColumnDefault(c: MemberColumn): Sql.Value {
    match c
    case Title => Sql.Text("Member")
    case Status => Sql.Text("active")
    case BackgroundCheck => Sql.Text("Not Started")
    case EmergencyPower | HfCapable | VhfUhfCapable | WinlinkCapable | SatelliteInternet
       | MobileStation | PortableStation | AprsCapable | DstarCapable | DmrCapable
       | FusionCapable | PacketRadio | SstvCapable | RttyCapable | Ft8Capable | Js8callCapable
       | GoKitReady | BackupBatteries | SolarPower | MeshNetwork | FirstnetDevice => Sql.Int(0)
    case _ => Sql.Null
  }

  /**
    The other columns of `members`: the coordinates and the four ID-card columns of the
    migrations. Neither `create` nor `update` writes them.
  */
  datatype OtherMemberColumn =
    Latitude | Longitude | HasIdCard | IdCardExpiryDate | IdCardIssuedBy | IdCardIssuedDate

  function OtherMemberColumnDefault(c: OtherMemberColumn): Sql.Value {
    if c == HasIdCard then Sql.Int(0) else Sql.Null
  }

  datatype MemberRow = MemberRow(
    columns: map<MemberColumn, Sql.Value>, others: map<OtherMemberColumn, Sql.Value>,
    createdAt: Timestamp, updatedAt: Timestamp)

  /** A column's stored value: a column missing from the row's map holds its default. */
  function Column(row: MemberRow, c: MemberColumn): Sql.Value {
    if c in row.columns then row.columns[c] else MemberColumnDefault(c)
  }

  function OtherColumn(row: MemberRow, c: OtherMemberColumn): Sql.Value {
    if c in row.others then row.others[c] else OtherMemberColumnDefault(c)
  }

  datatype TierRow = TierRow(name: string, description: Option<string>, sortOrder: int)

  datatype TaskRow = TaskRow(tierId: Id, name: string, description: Option<string>, sortOrder: int)

  // member_tasks, UNIQUE(member_id, task_id)
  datatype MemberTaskRow = MemberTaskRow(
    completed: Flag, verified: Flag, verifiedBy: Option<Id>, verifiedAt: Option<Timestamp>,
    notes: Option<string>, createdAt: Timestamp, updatedAt: Timestamp)

  // member_tiers, UNIQUE(member_id, tier_id)
  datatype MemberTierRow = MemberTierRow(
    achieved: Flag, achievedAt: Option<Timestamp>, createdAt: Timestamp, updatedAt: Timestamp)

  datatype SpecialAchievementRow = SpecialAchievementRow(
    name: string, description: Option<string>, requiresProof: Flag, adminOnly: Flag)

  // member_special_achievements, UNIQUE(member_id, achievement_id)
  datatype MemberAchievementRow = MemberAchievementRow(
    proofFilePath: Option<string>, verified: Flag, verifiedBy: Option<Id>,
    verifiedAt: Option<Timestamp>, grantedBy: Option<Id>, grantedAt: Option<Timestamp>,
    notes: Option<string>, createdAt: Timestamp, updatedAt: Timestamp)

  datatype EventRow = EventRow(
    name: string, eventDate: DateTime, minimumTierId: Option<Id>, createdBy: Id)

  datatype RsvpStatus = Attending | Cancelled

  // event_rsvps, UNIQUE(event_id, member_id)
  datatype RsvpRow = RsvpRow(
    status: RsvpStatus, notes: Option<string>, createdAt: Timestamp, updatedAt: Timestamp)

  // settings, key UNIQUE
  datatype SettingRow = SettingRow(value: Option<string>, createdAt: Timestamp, updatedAt: Timestamp)

  // passkeys, credential_id UNIQUE; `id` is the primary key that `delete` names.
  datatype PasskeyRow = PasskeyRow(
    id: Id, userId: Id, publicKey: string, counter: int, deviceName: Option<string>,
    transports: Option<string>, createdAt: Timestamp, lastUsedAt: Option<Timestamp>)

  datatype DocumentRow = DocumentRow(
    title: string, description: Option<string>, filePath: string, fileName: string,
    fileSize: Option<int>, mimeType: Option<string>, tierId: Option<Id>, uploadedBy: Id,
    createdAt: Timestamp, updatedAt: Timestamp)

  /**
    The database the static model classes share. The `*Seq` fields are the AUTOINCREMENT
    counters: every id handed out so far is below them.
  */
  class Database {
    var users: map<Id, UserRow>
    var members: map<Id, MemberRow>
    var tiers: map<Id, TierRow>
    var tasks: map<Id, TaskRow>
    var memberTasks: map<(Id, Id), MemberTaskRow>
    var memberTiers: map<(Id, Id), MemberTierRow>
    var specialAchievements: map<Id, SpecialAchievementRow>
    var memberAchievements: map<(Id, Id), MemberAchievementRow>
    var events: map<Id, EventRow>
    var eventRsvps: map<(Id, Id), RsvpRow>
    var settings: map<string, SettingRow>
    var passkeys: map<string, PasskeyRow>
    var documents: map<Id, DocumentRow>
    var memberSeq: nat
    var achievementSeq: nat
    var documentSeq: nat
    var passkeySeq: nat

    ghost predicate Valid()
      reads this
    {
      && (forall id :: id in members ==> id < memberSeq)
      && (forall id :: id in specialAchievements ==> id < achievementSeq)
      && (forall id :: id in documents ==> id < documentSeq)
      && (forall c :: c in passkeys ==> passkeys[c].id < passkeySeq)
    }

    /** A freshly migrated, empty database. */
    constructor ()
      ensures Valid()
      ensures users == map[] && members == map[] && tiers == map[] && tasks == map[]
      ensures memberTasks == map[] && memberTiers == map[] && specialAchievements == map[]
      ensures memberAchievements == map[] && events == map[] && eventRsvps == map[]
      ensures settings == map[] && passkeys == map[] && documents == map[]
    {
      users, members, tiers, tasks := map[], map[], map[], map[];
      memberTasks, memberTiers, specialAchievements := map[], map[], map[];
      memberAchievements, events, eventRsvps := map[], map[], map[];
      settings, passkeys, documents := map[], map[], map[];
      memberSeq, achievementSeq, documentSeq, passkeySeq := 1, 1, 1, 1;
    }
  }
}
