# ARES Depot membership model in Dafny

ARES Depot is a membership web application for an amateur-radio emergency service. It runs on
Express over SQLite. This project models its model layer and two of its middleware modules:

- the **tier/task achievement engine**. Members mark tasks completed and admins verify them.
  A member achieves a tier once the tier has a task and all its tasks are verified. The
  member_tiers row that records this is never reset.
- the **eligibility rules**. Events are gated by the sort_order of the member's highest
  achieved tier. Documents are gated by counts of *completed* (not verified) tasks.
- the **keyed upsert tables**: event RSVPs, special-achievement submissions and grants, the
  settings store with its SMTP configuration, and WebAuthn passkeys with the per-user
  challenge slot.
- the **session guards** and the **upload filters**.

Each table is a `map` keyed by its UNIQUE key from `src/database/migrate.js`. The keys are
member_tasks (member, task), member_tiers (member, tier), member_special_achievements
(member, achievement), event_rsvps (event, member), settings.key and passkeys.credential_id.
Rows carry the column defaults of the schema. All tables live in `Schema.Database`, a class.

An operation that writes a table has two parts:

- a pure transition function on the map, whose `ensures` say what the new table holds;
- a `method` on the `Database` that `modifies` only the fields it writes and is proved equal
  to that function of the old state.

Helpers outside the source's files:

- **`Js`** states the JavaScript semantics the code relies on: truthiness, `String(n)`,
  `parseInt`, `padStart`, `toLowerCase` and `includes`.
- **`Sql`** states SQLite's value order (NULL < integers < text in BINARY collation) and
  `ORDER BY` as a sort. Rows with equal keys may come in any order.
- **`Common`** holds `Option` and `Result`; `Result.ConstraintViolation` stands for a NOT NULL
  or UNIQUE failure.

How the environment is modelled:

- `CURRENT_TIMESTAMP` is a `now` parameter of each writing operation.
- `process.env` is a map parameter.
- A new row's id is the table's next sequence number.

Ordered queries are ghost functions, because `ORDER BY` leaves ties unordered.

## Model

| member | source | states |
|---|---|---|
| TierModel.TierTaskIds | src/models/Tier.js:45 | exactly the tasks whose tier_id is the tier |
| TierModel.TierTasks | src/models/Tier.js:35-38 | every task of the tier once, none of another tier, in ascending sort_order (also `Task.getByTier`) |
| TierModel.GetAll | src/models/Tier.js:16-18 | every tier exactly once, in ascending sort_order |
| TierModel.GetWithTasks | src/models/Tier.js:31-41 | null iff the tier is unknown; otherwise that tier's row with its tasks, all of them and only them, by sort_order |
| TierModel.VerifiedTaskIds | src/models/Tier.js:50-54 | the tier's tasks that have a verified=1 row for the member, a subset of the tier's tasks |
| TierModel.AllCompleteIffFullyVerified | src/models/Tier.js:47-56 | the count test (the tier has tasks, and verified rows == tasks) holds iff the tier has a task and every task of it is verified; this relies on one row per (member, task) |
| TierModel.RecordAchievement | src/models/Tier.js:60-75 | afterwards the row is achieved; an achieved row is untouched, an achieved=0 row is flipped and stamped now, a missing row is inserted achieved at now; only that key can change |
| TierModel.AchievementStep | src/models/Tier.js:43-79 | fully verified ⇒ achieved; not fully verified or no tasks ⇒ member_tiers unchanged; no row is removed; every achieved row keeps its contents; other keys unchanged |
| TierModel.AchievementStepIdempotent | src/models/Tier.js:59-76 | a second check, at any later time, changes nothing, so the first achieved_at is kept |
| TierModel.CheckMemberAchievement | src/models/Tier.js:43-79 | returns true iff the tier has a task and all its tasks are verified; member_tiers becomes `AchievementStep` of the old table |
| TaskModel.GetMemberTaskStatus | src/models/Task.js:34-39 | the member's row for the task, or none iff there is no row |
| TaskModel.MarkCompletedRows | src/models/Task.js:41-55 | the (member, task) row is completed with the new notes; an existing row keeps verified, verified_by, verified_at and created_at; a new row is unverified; only that key changes |
| TaskModel.VerifyTaskRows | src/models/Task.js:57-77 | the row is verified by the verifier at now with the new notes; an existing row keeps completed; a new row is completed; only that key changes |
| TaskModel.VerifyTaskTiers | src/models/Task.js:79-84 | an unknown task changes no member_tiers; otherwise only the (member, owning tier) row can change or appear |
| TaskModel.MarkCompletedKeepsVerification | src/models/Task.js:44-48 | marking an already verified task completed leaves it verified |
| TaskModel.VerifyingLastTaskAchievesTier | src/models/Task.js:57-84 | verifying the last unverified task of a tier records the tier as achieved |
| TaskModel.CompletionAloneDoesNotAchieve | src/models/Task.js:49-54 | a task newly marked completed leaves its tier not fully verified |
| TaskModel.MarkCompleted | src/models/Task.js:41-55 | member_tasks becomes `MarkCompletedRows` of the old table (the `notes = ''` default applied); nothing else is written |
| TaskModel.VerifyTask | src/models/Task.js:57-85 | member_tasks becomes `VerifyTaskRows`, then member_tiers becomes `VerifyTaskTiers` on the new member_tasks |
| TaskModel.Step | src/models/Task.js:41-85 | no engine call removes a member_tiers row |
| TaskModel.StepKeepsAchievements | src/models/Tier.js:59-76 | one call of markCompleted, verifyTask or checkMemberAchievement keeps every achieved row as it was |
| TaskModel.RunKeepsAchievements | src/models/Tier.js:59-76 | over any sequence of such calls, achievement is monotone: no row is removed, and achieved rows keep achieved=1 and their first achieved_at |
| TaskModel.EntryFor | src/models/Task.js:89-97 | a listed task's row carries the task, its tier's name and the member's status row or null |
| TaskModel.TierThenTaskKeyOrder | src/models/Task.js:98 | the two-column key orders by tier sort_order, then task sort_order |
| TaskModel.ListedTasks | src/models/Task.js:94-98 | each task whose tier exists, once, in tier-then-task order |
| TaskModel.GetMemberTasks | src/models/Task.js:87-100 | one entry per listed task, in the listed order |
| TaskModel.GetMemberTasksListsEveryTask | src/models/Task.js:87-100 | a task appears iff its tier exists; its status is null iff the member has no row; rows are distinct and in tier-then-task order |
| TaskModel.Entries | src/models/Task.js:87-100 | one entry per listed id, in the given order |
| MemberModel.UpdateColumnsAreAllButUserId | src/models/Member.js:41-89 | `fieldMapping` names 47 columns: every `MemberColumn` except user_id. The other six columns of members (latitude, longitude and the four ID-card columns of src/database/migrate.js:32-33 and 249-252) are `OtherMemberColumn`s and are not in it |
| MemberModel.NotNullColumnsChecked | src/database/migrate.js:20-30 | a NULL in a NOT NULL column of members is a constraint violation |
| MemberModel.NewMemberRow | src/models/Member.js:4-16 | the eleven listed columns take the bound values of their properties; every other column, has_id_card (DEFAULT 0) and the coordinates included, takes its schema default; both timestamps are now |
| MemberModel.NewMemberHasNoIdCard | src/models/Member.js:4-16 | a created member has has_id_card = 0 (its DEFAULT in src/database/migrate.js:249) and NULL coordinates |
| MemberModel.CreateUsesOnlyItsColumns | src/models/Member.js:5-8 | properties other than the eleven destructured ones make no difference to the inserted row |
| MemberModel.Create | src/models/Member.js:4-18 | fails iff the new row breaks NOT NULL or UNIQUE (and then nothing changes); otherwise the row is stored under the next id, which is returned; in a valid database that id names no existing row |
| MemberModel.AssignmentsEffect | src/models/Member.js:91-96 | after the SET list, a mapped column with a defined property holds its bound value, and every other column is kept |
| MemberModel.AssignmentsEmpty | src/models/Member.js:91-98 | the SET list is empty iff no mapped property is defined |
| MemberModel.AssignmentsReadOnlyMappedKeys | src/models/Member.js:91-96 | the SET list depends only on the mapped properties |
| MemberModel.UpdateWritesDefinedColumns | src/models/Member.js:91-106 | a successful update writes exactly the defined mapped columns, bumps updated_at, and leaves created_at, the other columns and every other member as they were |
| MemberModel.UpdateWithNothingDefinedIsNoop | src/models/Member.js:98 | with no defined mapped property the table is unchanged; updated_at is not bumped |
| MemberModel.UpdateIgnoresUnmappedKeys | src/models/Member.js:41-96 | properties outside `fieldMapping` do not affect the update |
| MemberModel.UpdateKeepsUnmappedColumns | src/models/Member.js:41-89 | update never changes user_id, latitude, longitude or the ID-card columns |
| MemberModel.PairUp | src/models/Member.js:93-94 | pairs the k-th field with the k-th value |
| MemberModel.CollectAssignments | src/models/Member.js:91-96 | the loop pushes one field and one value for each defined mapped property, in `fieldMapping` order |
| MemberModel.Update | src/models/Member.js:37-107 | members becomes `UpdateMember` of the old table; a constraint failure leaves it unchanged |
| MemberModel.AchievedTiers | src/models/Member.js:179-182 | exactly the existing tiers with an achieved=1 row for the member |
| MemberModel.HighestTier | src/models/Member.js:183-184 | an element of the set whose sort_order is maximal in it |
| MemberModel.GetCurrentTier | src/models/Member.js:177-186 | none iff the member has no achieved tier; otherwise an achieved tier whose sort_order no achieved tier exceeds |
| MemberModel.TierProgressOf | src/models/Member.js:141-153 | the progress row names its tier |
| MemberModel.TierProgressMeaning | src/models/Member.js:145-149 | completed_tasks ≤ total_tasks; total_tasks is 0 iff the tier has no task; completed_tasks = total_tasks > 0 iff the tier is fully verified |
| MemberModel.HeldAchievements | src/models/Member.js:163-167 | exactly the existing special achievements the member has a row for |
| MemberModel.AchievementsOf | src/models/Member.js:156-168 | one row per id, with the achievement and the member's row for it |
| MemberModel.TierProgressRows | src/models/Member.js:141-153 | one progress row per tier id given, in that order |
| MemberModel.TierProgressList | src/models/Member.js:141-153 | the progress rows follow `Tier.getAll` order |
| MemberModel.TierProgressListsEveryTier | src/models/Member.js:141-153 | one row per tier, each tier once, by ascending sort_order |
| MemberModel.AchievementList | src/models/Member.js:156-168 | an achievement is listed iff it exists and the member has a row for it, with that row |
| MemberModel.GetWithProgress | src/models/Member.js:136-175 | null iff the member is unknown; otherwise the member's row, the tier-progress list and the achievement list |
| MemberModel.ProgressShowsVerification | src/models/Member.js:141-153 | on the progress page a tier shows all tasks done iff it is fully verified, and a tier without tasks shows 0 of 0 |
| EventModel.GetMemberRsvpStatus | src/models/Event.js:115-120 | the member's RSVP row for the event, cancelled or not, or none iff there is no row |
| EventModel.AddRsvpRows | src/models/Event.js:63-80 | the keys gain the (event, member) pair; the row is attending with the new notes; an existing row keeps created_at; other rows unchanged |
| EventModel.RemoveRsvpRows | src/models/Event.js:82-87 | the same keys; an existing row becomes cancelled with notes and created_at kept; no row ⇒ no change; other rows unchanged |
| EventModel.RsvpAfterCancel | src/models/Event.js:63-87 | RSVPing after a cancellation gives attending again, as if never cancelled |
| EventModel.AddRsvp | src/models/Event.js:63-80 | event_rsvps becomes `AddRsvpRows` of the old table, with `notes = ''` as the default |
| EventModel.RemoveRsvp | src/models/Event.js:82-87 | event_rsvps becomes `RemoveRsvpRows` of the old table |
| EventModel.CanMemberAttend | src/models/Event.js:103-113 | missing event or falsy minimum tier ⇒ true; no current tier ⇒ false; else true iff the current tier's sort_order ≥ the required tier's |
| EventModel.AchievedTierAdmits | src/models/Event.js:103-113 | any achieved tier that reaches the requirement admits the member |
| EventModel.LowerRequirementAdmits | src/models/Event.js:112 | a member admitted to an event is admitted to every event with an equal or lower requirement |
| EventModel.AttendanceIsMonotone | src/models/Event.js:103-113 | achieving more tiers never takes an event away |
| EventModel.AchievementKeepsAttendance | src/models/Tier.js:59-76 | the achievement check keeps every event a member could attend |
| EventModel.RsvpToEvent | src/routes/events.js:86-91 | the RSVP is written iff `canMemberAttend` holds; otherwise event_rsvps is unchanged |
| EventModel.AttendingIds | src/models/Event.js:95-98 | exactly the existing members with a user and an attending RSVP for the event |
| EventModel.NameKeyOrder | src/models/Event.js:99 | the key orders by last name, then first name |
| EventModel.AttendeeOrder | src/models/Event.js:89-101 | each attending member once, ordered by last name then first name |
| EventModel.AttendeeOf | src/models/Event.js:91-94 | the attendee row carries the member, the user's email, and the RSVP's notes and created_at |
| EventModel.GetAttendees | src/models/Event.js:89-101 | one attendee row per member, in `AttendeeOrder` |
| EventModel.RsvpChangesOnlyThatAttendee | src/models/Event.js:63-101 | after an RSVP the member is listed (if they exist and have a user); after a cancellation they are not; no other member's listing changes |
| EventModel.Digits | src/models/Event.js:134 | a zero-padded numeral of the given width |
| EventModel.CompareDigits | src/models/Event.js:134 | zero-padded numerals of equal width compare as their numbers |
| EventModel.CompareDateText | src/models/Event.js:134 | YYYY-MM-DD texts compare as text exactly as the dates compare |
| EventModel.MonthStart | src/models/Event.js:124 | the start bound ends in "-01" |
| EventModel.MonthEnd | src/models/Event.js:125-127 | the end bound ends in "-01"; December rolls over to January of the next year |
| EventModel.DateOfFirst | src/models/Event.js:134 | `date()` of a first-of-month text is that text (ten characters) or NULL |
| EventModel.MonthStartBound | src/models/Event.js:124 | for a four-digit year and a month in 1..12 the start is the date year-month-01 |
| EventModel.MonthEndBound | src/models/Event.js:125-127 | and the end is the first of the next month, December included |
| EventModel.MonthWindowIsCalendarMonth | src/models/Event.js:122-136 | the half-open window [start, end) holds exactly that year's month, for a four-digit year |
| EventModel.BadMonthStartIsNull | src/models/Event.js:124 | a month outside 1..12 gives a start that `date()` turns into NULL |
| EventModel.MonthOutOfRangeListsNothing | src/models/Event.js:122-136 | with a month outside 1..12 no event is in the window |
| EventModel.AttendingRsvps | src/models/Event.js:131 | exactly the attending RSVPs of the event |
| EventModel.CalendarEntry | src/models/Event.js:129-134 | the row carries the event, the attendee count and the tier order iff the minimum tier exists |
| EventModel.MonthEvents | src/models/Event.js:134 | exactly the events in the month window |
| EventModel.MonthEventIds | src/models/Event.js:129-135 | each event of the window once, sorted by date |
| EventModel.GetByMonth | src/models/Event.js:122-137 | one calendar row per event of the window, in date order |
| EventModel.CalendarEntries | src/models/Event.js:129-136 | one calendar row per listed id, in the given order |
| EventModel.GetByMonthListsTheWindow | src/models/Event.js:122-137 | an event is listed iff it is in the month window |
| EventModel.GetByMonthListsTheMonth | src/models/Event.js:122-137 | for a four-digit year and a month in 1..12, an event is listed iff it falls in that year and month |
| DocumentModel.StoredTier | src/models/Document.js:8 | `tierId \|\| null`: NULL iff the tier is missing or 0 |
| DocumentModel.NewDocumentRow | src/models/Document.js:4-11 | none iff a NOT NULL column gets NULL; otherwise the row of the given data with the falsy tier stored as NULL |
| DocumentModel.Create | src/models/Document.js:4-11 | fails iff the row breaks NOT NULL (nothing changes); otherwise it is stored under the next id, which is returned; in a valid database that id names no existing row |
| DocumentModel.UpdateDocumentRows | src/models/Document.js:89-96 | a NULL title on an existing row is refused; an unknown id changes nothing; otherwise title, description, tier and updated_at are set and other rows unchanged |
| DocumentModel.Update | src/models/Document.js:89-96 | documents becomes `UpdateDocumentRows` of the old table |
| DocumentModel.Delete | src/models/Document.js:98-100 | removes exactly that id |
| DocumentModel.CompletedTaskIds | src/models/Document.js:111-115 | the tier's tasks with a completed=1 row for the member |
| DocumentModel.CountsMatchIffAllCompleted | src/models/Document.js:110-119 | the count comparison holds iff every task of the tier is completed, vacuously for a tier without tasks |
| DocumentModel.CanMemberAccess | src/models/Document.js:102-120 | unknown document ⇒ false; falsy tier ⇒ true; otherwise true iff the member completed every task of the tier |
| DocumentModel.CompletionWithoutVerificationGrantsAccess | src/models/Document.js:110-119 | completed but unverified tasks open the document, although the tier is not fully verified |
| DocumentModel.TaskTierIds | src/models/Document.js:51 | exactly the tier ids that occur in tasks |
| DocumentModel.QualifyingTiers | src/models/Document.js:46-54 | exactly the tiers that pass the grouped query |
| DocumentModel.QualifiesIffCompletedTier | src/models/Document.js:46-53 | a tier qualifies iff it has a task and the member completed all its tasks |
| DocumentModel.UntieredIds | src/models/Document.js:69 | exactly the documents with NULL tier_id |
| DocumentModel.UntieredOrInIds | src/models/Document.js:83 | exactly the documents with NULL tier_id or a tier in the set |
| DocumentModel.AccessibleSet | src/models/Document.js:56-86 | a document is selected iff it is untiered or its tier qualifies, in both branches |
| DocumentModel.AccessibleIds | src/models/Document.js:44-87 | each selected document once, newest first |
| DocumentModel.GetAccessibleByMember | src/models/Document.js:44-87 | one row per accessible id, in that order |
| DocumentModel.ListingAgreesWithAccessForTiersWithTasks | src/models/Document.js:44-120 | for a tier with a task, the listing and `canMemberAccess` agree |
| DocumentModel.UntieredDocumentIsOpenToAll | src/models/Document.js:56-107 | an untiered document is listed and open to every member |
| DocumentModel.ZeroTaskTierDisagreement | src/models/Document.js:44-120 | a document of a tier without tasks is open to all (0 = 0) yet listed for nobody, and the tier is achieved by nobody |
| DocumentModel.FalsyTierOpensDocument | src/models/Document.js:8-107 | a document created or updated with a falsy tier is open to every member |
| DocumentModel.DeletedDocumentIsClosed | src/models/Document.js:98-104 | a deleted document is neither open nor listed |
| DocumentModel.UpdateKeepsOtherAccess | src/models/Document.js:89-96 | an update changes access to no other document |
| AchievementModel.FlagArgument | src/models/Achievement.js:4-7 | `x ? 1 : 0` with the argument's default applied |
| AchievementModel.NewAchievementRow | src/models/Achievement.js:4-10 | refused iff the name is NULL; requires_proof defaults to 1 and admin_only to 0, both stored as 1/0 |
| AchievementModel.Create | src/models/Achievement.js:4-10 | fails iff the name is NULL; otherwise stores the row under the next id, which is returned; in a valid database that id names no existing row |
| AchievementModel.UpdateAchievementRows | src/models/Achievement.js:20-25 | NULL name on an existing row refused; unknown id unchanged; otherwise the four columns replaced, flags as 1/0; other rows unchanged |
| AchievementModel.Update | src/models/Achievement.js:20-25 | special_achievements becomes `UpdateAchievementRows` of the old table |
| AchievementModel.Delete | src/models/Achievement.js:27-29 | removes exactly that id |
| AchievementModel.ByName | src/models/Achievement.js:17 | rows sorted by the name key are in ascending BINARY name order |
| AchievementModel.IdsByName | src/models/Achievement.js:17 | every achievement once, by name |
| AchievementModel.GetAll | src/models/Achievement.js:16-18 | every achievement with its row, by name |
| AchievementModel.SubmitRows | src/models/Achievement.js:31-52 | an existing row gets the notes and COALESCE(new proof, old proof) and keeps its verification; otherwise an unverified row; other rows unchanged |
| AchievementModel.Approved | src/models/Achievement.js:63-73 | verified = 1, verifier = granter, both times now, new notes; proof and created_at kept |
| AchievementModel.VerifyRows | src/models/Achievement.js:54-79 | an existing row is approved; with no row nothing changes; other rows unchanged |
| AchievementModel.GrantRows | src/models/Achievement.js:81-108 | afterwards the row exists and is approved by the granter; a new row has no proof; an existing row keeps its proof and created_at; other rows unchanged |
| AchievementModel.RevokeRows | src/models/Achievement.js:110-115 | removes exactly the (member, achievement) row |
| AchievementModel.SubmitForMember | src/models/Achievement.js:31-52 | member_special_achievements becomes `SubmitRows` of the old table |
| AchievementModel.Verify | src/models/Achievement.js:54-79 | member_special_achievements becomes `VerifyRows` of the old table |
| AchievementModel.GrantAdminAchievement | src/models/Achievement.js:81-108 | member_special_achievements becomes `GrantRows` of the old table |
| AchievementModel.RevokeAdminAchievement | src/models/Achievement.js:110-115 | member_special_achievements becomes `RevokeRows` of the old table |
| AchievementModel.GrantOnExistingRowIsVerify | src/models/Achievement.js:62-98 | on an existing row, grant and verify make the same update |
| AchievementModel.ResubmissionKeepsApproval | src/models/Achievement.js:37-45 | resubmitting keeps the verification columns |
| AchievementModel.RevokeUndoesGrant | src/models/Achievement.js:81-115 | revoking after a grant removes the row and touches no other |
| AchievementModel.PendingKeys | src/models/Achievement.js:140-143 | exactly the verified=0 rows whose achievement and member exist |
| AchievementModel.OldestFirst | src/models/Achievement.js:144 | rows sorted by the created_at key are in ascending created_at order |
| AchievementModel.PendingOrder | src/models/Achievement.js:134-146 | each pending row once, oldest submission first |
| AchievementModel.GetPendingVerifications | src/models/Achievement.js:134-146 | one entry per pending row, in that order |
| AchievementModel.SubmissionAwaitsVerification | src/models/Achievement.js:31-108 | a first submission is pending; after verify or grant it no longer is |
| AchievementModel.GrantIsNeverPending | src/models/Achievement.js:81-108 | a granted row is never pending |
| AchievementModel.EntryFor | src/models/Achievement.js:118-129 | the achievement with the member's row, or null iff the member has none |
| AchievementModel.GetMemberAchievements | src/models/Achievement.js:117-132 | one entry per achievement, by name |
| AchievementModel.Entries | src/models/Achievement.js:117-132 | one entry per given id, in that order |
| AchievementModel.MemberAchievementsListEach | src/models/Achievement.js:117-132 | every achievement listed exactly once; the status is the member's row or null iff the member has none |
| SettingModel.Get | src/models/Setting.js:4-7 | the stored value (possibly NULL) iff a row has the key, else the default |
| SettingModel.SetRows | src/models/Setting.js:9-23 | the keys gain `key`; its value is the new one, updated now; created_at is kept or now; no other key changes |
| SettingModel.Set | src/models/Setting.js:9-23 | settings becomes `SetRows` of the old table |
| SettingModel.GetAfterSet | src/models/Setting.js:4-23 | after `set(key, v)`, `get(key)` is v whatever the default, and other keys read as before |
| SettingModel.SetTwice | src/models/Setting.js:9-23 | setting a key twice keeps the second value and the first creation time |
| SettingModel.AllSettings | src/models/Setting.js:25-32 | the result object has exactly the stored keys |
| SettingModel.AllSettingsAgreeWithGet | src/models/Setting.js:4-32 | `getAll` and `get` agree on every stored key |
| SettingModel.GetAll | src/models/Setting.js:25-32 | the forEach loop yields every stored key mapped to its value, whatever the row order |
| SettingModel.EnvOr | src/models/Setting.js:36-41 | the variable if set and non-empty, else the fallback |
| SettingModel.ParseStored | src/models/Setting.js:37 | `parseInt` of the stored text; NULL reads as NaN |
| SettingModel.GetSmtpConfig | src/models/Setting.js:34-43 | each field is the stored setting or its environment fallback; secure is `=== 'true'` |
| SettingModel.SecureText | src/models/Setting.js:48 | 'true' iff the flag is truthy, else 'false' |
| SettingModel.SetSmtpConfig | src/models/Setting.js:45-54 | settings becomes the sequence of upserts, smtp_pass only for a truthy password |
| SettingModel.SetSmtpConfigWrites | src/models/Setting.js:45-54 | the keys hold the given values, secure as 'true'/'false', port as its decimal text; smtp_pass only for a truthy password; other keys unchanged |
| SettingModel.SetSmtpConfigKeys | src/models/Setting.js:45-54 | the keys gain the written ones and lose none |
| SettingModel.SmtpKeysDiffer | src/models/Setting.js:36-53 | the six setting names are pairwise distinct |
| SettingModel.SmtpConfigRoundTrip | src/models/Setting.js:34-54 | after `setSmtpConfig`, `getSmtpConfig` gives the same host, user and from, the same port through parseInt, secure as the flag's truthiness, and the new or previous pass |
| SettingModel.FalsyPassKeepsStoredPass | src/models/Setting.js:50-52 | a falsy password leaves the smtp_pass row, or its absence, as it was |
| PasskeyModel.EncodeTransports | src/models/Passkey.js:8 | `JSON.stringify` of the array: bracketed, quoted, comma-separated |
| PasskeyModel.TakeName | src/models/Passkey.js:19 | the quote-free prefix of the text |
| PasskeyModel.DecodeItems | src/models/Passkey.js:19 | a result is a non-empty list |
| PasskeyModel.DecodeLastItem | src/models/Passkey.js:19 | a quoted plain name at the end decodes to that name |
| PasskeyModel.DecodeItemThenComma | src/models/Passkey.js:19 | a quoted name and a comma decode to that name, then the rest |
| PasskeyModel.DecodeJoinStep | src/models/Passkey.js:19 | the decoder reads the first element and then the rest |
| PasskeyModel.DecodeJoinItems | src/models/Passkey.js:8-19 | the joined elements decode to the same list |
| PasskeyModel.DecodeEncodeTransports | src/models/Passkey.js:8-19 | `JSON.parse(JSON.stringify(ts)) == ts` for arrays of plain names |
| PasskeyModel.ReadTransports | src/models/Passkey.js:18-20 | a NULL column stays null; a stored list decodes |
| PasskeyModel.NewPasskeyRow | src/models/Passkey.js:4-11 | counter defaults to 0; transports encoded or NULL; user, public key and device name as given; created now, never used |
| PasskeyModel.NewPasskeyTransportsReadBack | src/models/Passkey.js:4-20 | what `create` stored reads back as the list given, or null when none was |
| PasskeyModel.Create | src/models/Passkey.js:4-11 | fails iff the credential id is already stored, and then nothing changes; otherwise the row is stored under the next id, which is returned; in a valid database no stored passkey has that id |
| PasskeyModel.View | src/models/Passkey.js:18-20 | the row with its transports decoded |
| PasskeyModel.FindByCredentialId | src/models/Passkey.js:13-22 | the row with that credential id, or null iff there is none |
| PasskeyModel.UserCredentials | src/models/Passkey.js:26 | exactly the credentials of the user |
| PasskeyModel.NewestFirst | src/models/Passkey.js:26 | sorted credentials are in descending created_at order |
| PasskeyModel.UserCredentialIds | src/models/Passkey.js:24-28 | each of the user's credentials once, newest first |
| PasskeyModel.FindByUserId | src/models/Passkey.js:24-35 | one decoded row per credential, in that order |
| PasskeyModel.FindByUserIdListsOwnPasskeys | src/models/Passkey.js:24-35 | a credential is listed iff it is the user's, once, newest first |
| PasskeyModel.UpdateCounterRows | src/models/Passkey.js:37-42 | only that credential's counter and last_used_at change |
| PasskeyModel.UpdateCounter | src/models/Passkey.js:37-42 | passkeys becomes `UpdateCounterRows` of the old table |
| PasskeyModel.UpdateCounterIsSeen | src/models/Passkey.js:37-42 | the lookup then reports the new counter and use time, same owner and key; other credentials read as before |
| PasskeyModel.DeleteRows | src/models/Passkey.js:44-49 | a row goes iff both its id and its owner match |
| PasskeyModel.Delete | src/models/Passkey.js:44-49 | passkeys becomes `DeleteRows` of the old table |
| PasskeyModel.DeleteIsOwnerScoped | src/models/Passkey.js:44-49 | another user's passkey survives with its contents; the owner's named one is gone |
| PasskeyModel.SetChallengeRows | src/models/Passkey.js:51-71 | only that user's challenge changes; an unknown user gets no row |
| PasskeyModel.GetChallenge | src/models/Passkey.js:58-64 | the stored challenge, or null for an unknown user |
| PasskeyModel.SetChallenge | src/models/Passkey.js:51-56 | users becomes `SetChallengeRows` with the challenge |
| PasskeyModel.ClearChallenge | src/models/Passkey.js:66-71 | users becomes `SetChallengeRows` with NULL |
| PasskeyModel.ChallengeSlot | src/models/Passkey.js:51-71 | set then get returns the challenge; clear then get is null; an unknown user has none; other users' slots unchanged |
| Auth.AuthDecision | src/middleware/auth.js:1-7 | next iff there is a user, else redirect to /auth/login |
| Auth.RequireAuth | src/middleware/auth.js:1-7 | the decision above; without a user, returnTo is set to the original URL |
| Auth.RequireAdmin | src/middleware/auth.js:9-14 | next iff a user with truthy is_admin, else 403 with the admin message |
| Auth.RequireMember | src/middleware/auth.js:16-21 | next iff a user who is not admin, else 403 with the member message |
| Auth.RedirectIfAuthenticated | src/middleware/auth.js:23-28 | next iff no user; admins go to /admin/dashboard, others to /members/dashboard |
| Auth.RoleGuardsPartitionUsers | src/middleware/auth.js:9-21 | no user passes both role guards; each signed-in user passes exactly one; no anonymous request passes either |
| Auth.GuardsAgreeOnSignedIn | src/middleware/auth.js:1-28 | `redirectIfAuthenticated` admits exactly what `requireAuth` refuses; the role guards admit only signed-in users |
| Auth.GuardResponses | src/middleware/auth.js:1-28 | each guard does exactly one of next, redirect or 403, never both redirect and 403 |
| Upload.LastIndexOf | src/middleware/upload.js:53 | the last index of the character, or none iff absent |
| Upload.StripTrailingSlashes | src/middleware/upload.js:53 | the path without its trailing slashes |
| Upload.BaseName | src/middleware/upload.js:53 | the last path component |
| Upload.Extname | src/middleware/upload.js:53 | `path.extname`: from the last dot of the last component; empty with no dot, a leading dot or ".." |
| Upload.ExtnameOfName | src/middleware/upload.js:53 | a name `stem.ext` without slashes has extension ".ext" |
| Upload.FileFilter | src/middleware/upload.js:51-61 | accepts iff the lower-cased extension and the raw mimetype each contain jpeg, jpg, png or pdf; otherwise rejects with the message |
| Upload.PhotoFilter | src/middleware/upload.js:80-90 | the same without pdf, with the photo message |
| Upload.PhotoFilterIsStricter | src/middleware/upload.js:51-90 | every accepted photo passes the general filter |
| Upload.NotMatched | src/middleware/upload.js:52-54 | no pattern matches when each lacks a character of the text |
| Upload.NoPhotoType | src/middleware/upload.js:81-83 | a text without 'j' and 'g' matches no photo type |
| Upload.PdfIsNeverAPhoto | src/middleware/upload.js:80-90 | a file with a .pdf extension in any case, or sent as application/pdf, is refused as a photo |
| Upload.LowerPdf | src/middleware/upload.js:82 | ".pdf" in any case lower-cases to ".pdf" |
| Upload.MatchesAt | src/middleware/upload.js:52-54 | an occurrence of an allowed type passes the pattern test |
| Upload.LowerExtnameOfName | src/middleware/upload.js:53 | the lower-cased extension of `stem.ext` is "." and the lower-cased ext |
| Upload.ExtensionCaseIsIgnored | src/middleware/upload.js:53 | names differing only in the case of their extension get the same verdicts |
| Upload.UpperCaseMimetypeIsRefused | src/middleware/upload.js:54 | a mimetype with no lower-case letter is refused by both filters |
| Upload.FilterIsUnanchored | src/middleware/upload.js:52-54 | a name and mimetype that merely contain "png" pass both filters |
| Upload.MaxFileSize | src/middleware/upload.js:63 | `parseInt(v) \|\| 5 MiB`: the default iff the variable is unset, not numeric or 0 |
| Upload.MaxFileSizeOfNumber | src/middleware/upload.js:63 | a decimal integer n gives n, except that 0 gives the default |
| Upload.MaxFileSizeOfSpacedNumber | src/middleware/upload.js:63 | the same when the number follows a white-space character such as U+3000 |
| Js.NatToString | src/models/Setting.js:47 | a non-empty digit string, one digit exactly for n < 10 |
| Js.ParseIntOfIntToString | src/models/Setting.js:37-47 | `parseInt(n.toString()) === n` for every integer |
| Js.ParseIntSkipsLeadingSpace | src/models/Setting.js:37 | a leading ECMAScript white-space or line-terminator character (every Zs space included) does not change what `parseInt` reads |
| Js.PadStart | src/models/Event.js:124 | `padStart(width, fill)`: the text at the end, fill before it, length max(width, length) |
| Js.ToLowerAscii | src/middleware/upload.js:53 | same length; ASCII capitals lowered, other characters kept |
| Js.Contains | src/middleware/upload.js:52-54 | true iff the pattern occurs somewhere in the text |
| Sql.CompareValue | src/models/Event.js:99 | a three-way order on SQLite values; 0 iff equal |
| Sql.CompareValueTransitive | src/models/Event.js:99 | the value order is transitive |
| Sql.OrderBy | src/models/Tier.js:17 | `ORDER BY`: each selected row once, none other, sorted by the key |

## Left out

- Route handlers (`src/routes/*.js`), `server.js`, rendering and sessions are out of scope. The one route rule stated is the RSVP gate, `EventModel.RsvpToEvent`. The admin-only restriction on verification (src/routes/admin.js) is a routing concern.
- Tier, Task and Event create/update/delete, `Event.getAll`/`findById`/`getUpcoming`, and `Member.findByUserId`/`findById`/`findByCallsign`/`getDirectory` are plain CRUD or wall-clock queries (`datetime('now')`). Only the rows they return feed the modelled rules.
- `Member.getAll`: its join with `MAX(tier_id)` has unclear row multiplicity, so nothing is promised about it.
- `Achievement.findById` is a plain lookup.
- `Achievement.verify` parses its ids with `parseInt`. The model takes the ids as numbers.
- Foreign-key cascades and `ON DELETE SET NULL` depend on pragma settings that are not visible. Deleting a row never touches other tables in the model.
- Joined display columns are not modelled: tier names in document lists, uploader names, granted-by and verified-by names and e-mails. The rows carry the table columns and the ids they join on.
- The timestamps of special_achievements, and the row ids of member_special_achievements, are not modelled. Rows are keyed by their UNIQUE pair.
- SQLite type affinity is not modelled. Columns hold the types the model gives them, and text parameters are not coerced to numbers.
- EventModel.MonthWindowIsCalendarMonth: proved only for four-digit years and not for December 9999. `date()` of other years, and the calendar of such months, are defined but not characterised.
- `parseInt` results are unbounded integers. NaN is `None`, and Number precision beyond 2^53 is not modelled.
- Js.ToLowerAscii: `toLowerCase` is modelled for ASCII letters only. Other characters are kept, whereas JavaScript lowers non-ASCII letters too.
- PasskeyModel.ReadTransports: only arrays of plain names (no quote, backslash or control character) are read. An empty stored string, which the source leaves as '', reads as null. A malformed stored value, on which `JSON.parse` throws, also reads as null.
- PasskeyModel.Create: an explicitly passed `null` counter is not distinguished from a number. The foreign key from user_id to users is not checked.
- Upload: multer's storage, including file names built from `Date.now()` and `Math.random()`, is not modelled. Neither is the directory creation at load time or the enforcement of the size limit.
- Upload: `uploadLicense`, `uploadProof` and `uploadPhoto` are not modelled as objects. The model covers the filter and limit each is built from.
- SQLite's `date()` rolls an impossible day forward (February 31 becomes March 2 or 3). `EventModel.EventDay` writes such a day as it is, and `EventModel.DateKey` orders by the raw fields. For an event stored with such a day, the model's month listing can differ from SQLite's.
- TaskModel.NotesArgument: an explicit `null` notes argument, which the default would keep as NULL, is not modelled. Every caller passes `req.body.notes || ''`, which is a string.
- Auth: a request without a session object is not modelled; the session always exists.
- SettingModel.SetSmtpConfig: a configuration property that is absent is modelled as `None`, which stores NULL, as the sqlite3 driver does for `undefined`.
- The asynchronous check-then-insert upserts run one at a time. Races between concurrent requests are not modelled.
- Password hashing, the WebAuthn verification flow, e-mail sending and geocoding are external calls and are not part of this model.
