/**
  Task progress of src/models/Task.js: members mark tasks completed, admins verify them, and
  verifying a task re-runs the achievement check for the tier that owns it.
*/
module TaskModel {
  import opened Common
  import opened Schema
  import Sql
  import TierModel

  // ---------------------------------------------------------------------------------------
  // member_tasks upserts
  // ---------------------------------------------------------------------------------------

  /**
    The `notes = ''` default: an omitted argument (`None`) stores the empty string. An
    explicit `null` has no value here: every caller passes `req.body.notes || ''`, a string.
  */
  function NotesArgument(notes: Option<string>): string {
    if notes.Some? then notes.value else ""
  }

  /** `Task.getMemberTaskStatus`: the member's row for the task, if any. */
  function GetMemberTaskStatus(memberTasks: map<(Id, Id), MemberTaskRow>, memberId: Id, taskId: Id)
    : (r: Option<MemberTaskRow>)
    ensures r.Some? <==> (memberId, taskId) in memberTasks
    ensures r.Some? ==> r.value == memberTasks[(memberId, taskId)]
  {
    if (memberId, taskId) in memberTasks then Some(memberTasks[(memberId, taskId)]) else None
  }

  /**
    member_tasks after `markCompleted`: an existing row is marked completed with its notes
    replaced and its verification left as it was; otherwise a completed, unverified row is
    inserted.
  */
  function MarkCompletedRows(memberTasks: map<(Id, Id), MemberTaskRow>, memberId: Id, taskId: Id,
                             notes: string, now: Timestamp): (r: map<(Id, Id), MemberTaskRow>)
    ensures (memberId, taskId) in r
    ensures r == memberTasks[(memberId, taskId) := r[(memberId, taskId)]]
    ensures r[(memberId, taskId)].completed == 1 && r[(memberId, taskId)].notes == Some(notes)
    ensures (memberId, taskId) in memberTasks ==>
      var before, after := memberTasks[(memberId, taskId)], r[(memberId, taskId)];
      after.verified == before.verified && after.verifiedBy == before.verifiedBy
      && after.verifiedAt == before.verifiedAt && after.createdAt == before.createdAt
      && after.updatedAt == now
    ensures (memberId, taskId) !in memberTasks ==>
      r[(memberId, taskId)] == MemberTaskRow(1, 0, None, None, Some(notes), now, now)
  {
    var key := (memberId, taskId);
    if key in memberTasks then
      memberTasks[key := memberTasks[key].(completed := 1, notes := Some(notes), updatedAt := now)]
    else
      memberTasks[key := MemberTaskRow(1, 0, None, None, Some(notes), now, now)]
  }

  /**
    member_tasks after the upsert in `verifyTask`: an existing row is verified by `verifiedBy`
    with its completed flag left as it was; otherwise a completed and verified row is inserted.
  */
  function VerifyTaskRows(memberTasks: map<(Id, Id), MemberTaskRow>, memberId: Id, taskId: Id,
                          verifiedBy: Id, notes: string, now: Timestamp)
    : (r: map<(Id, Id), MemberTaskRow>)
    ensures (memberId, taskId) in r
    ensures r == memberTasks[(memberId, taskId) := r[(memberId, taskId)]]
    ensures var row := r[(memberId, taskId)];
      row.verified == 1 && row.verifiedBy == Some(verifiedBy) && row.verifiedAt == Some(now)
      && row.notes == Some(notes)
    ensures (memberId, taskId) in memberTasks ==>
      var before, after := memberTasks[(memberId, taskId)], r[(memberId, taskId)];
      after.completed == before.completed && after.createdAt == before.createdAt
      && after.updatedAt == now
    ensures (memberId, taskId) !in memberTasks ==> r[(memberId, taskId)].completed == 1
  {
    var key := (memberId, taskId);
    if key in memberTasks then
      memberTasks[key := memberTasks[key].(verified := 1, verifiedBy := Some(verifiedBy),
                                            verifiedAt := Some(now), notes := Some(notes),
                                            updatedAt := now)]
    else
      memberTasks[key := MemberTaskRow(1, 1, Some(verifiedBy), Some(now), Some(notes), now, now)]
  }

  /**
    member_tiers after `verifyTask`: the achievement check runs for the tier owning the task,
    evaluated on the updated member_tasks, and is skipped for an unknown task.
  */
  function VerifyTaskTiers(tasks: map<Id, TaskRow>, memberTasks: map<(Id, Id), MemberTaskRow>,
                           memberTiers: map<(Id, Id), MemberTierRow>, memberId: Id, taskId: Id,
                           now: Timestamp): (r: map<(Id, Id), MemberTierRow>)
    ensures taskId !in tasks ==> r == memberTiers
    ensures forall k :: (k in memberTiers && (taskId !in tasks || k != (memberId, tasks[taskId].tierId))
      ==> k in r && r[k] == memberTiers[k])
    ensures forall k :: k in r && k !in memberTiers ==> taskId in tasks && k == (memberId, tasks[taskId].tierId)
  {
    if taskId in tasks then
      TierModel.AchievementStep(tasks, memberTasks, memberTiers, memberId, tasks[taskId].tierId, now)
    else
      memberTiers
  }

  /** Re-running `markCompleted` on a verified task does not undo the verification. */
  lemma MarkCompletedKeepsVerification(memberTasks: map<(Id, Id), MemberTaskRow>, memberId: Id,
                                       taskId: Id, notes: string, now: Timestamp, verifiedBy: Id,
                                       notes2: string, now2: Timestamp)
    ensures var verified := VerifyTaskRows(memberTasks, memberId, taskId, verifiedBy, notes, now);
      MarkCompletedRows(verified, memberId, taskId, notes2, now2)[(memberId, taskId)].verified == 1
  {
  }

  /**
    Verifying the last unverified task of a tier records the tier as achieved: the
    recomputation in `verifyTask` sees the row it has just written.
  */
  lemma VerifyingLastTaskAchievesTier(tasks: map<Id, TaskRow>, memberTasks: map<(Id, Id), MemberTaskRow>,
                                      memberTiers: map<(Id, Id), MemberTierRow>, memberId: Id,
                                      taskId: Id, verifiedBy: Id, notes: string, now: Timestamp)
    requires taskId in tasks
    requires forall t :: t in tasks && tasks[t].tierId == tasks[taskId].tierId && t != taskId ==>
      (memberId, t) in memberTasks && memberTasks[(memberId, t)].verified == 1
    ensures var after := VerifyTaskRows(memberTasks, memberId, taskId, verifiedBy, notes, now);
      TierModel.Achieved(VerifyTaskTiers(tasks, after, memberTiers, memberId, taskId, now),
                         memberId, tasks[taskId].tierId)
  {
    var after := VerifyTaskRows(memberTasks, memberId, taskId, verifiedBy, notes, now);
    assert TierModel.TierFullyVerified(tasks, after, memberId, tasks[taskId].tierId);
  }

  /**
    Marking a task completed is not enough: after `markCompleted` on a task the member has no
    row for, the task's tier is not fully verified.
  */
  lemma CompletionAloneDoesNotAchieve(tasks: map<Id, TaskRow>, memberTasks: map<(Id, Id), MemberTaskRow>,
                                      memberId: Id, taskId: Id, notes: string, now: Timestamp)
    requires taskId in tasks
    requires (memberId, taskId) !in memberTasks
    ensures var after := MarkCompletedRows(memberTasks, memberId, taskId, notes, now);
      !TierModel.TierFullyVerified(tasks, after, memberId, tasks[taskId].tierId)
  {
  }

  /** `Task.markCompleted`: the member_tasks upsert, and nothing else. */
  method MarkCompleted(db: Database, memberId: Id, taskId: Id, notes: Option<string>, now: Timestamp)
    modifies db`memberTasks
    ensures db.memberTasks
         == MarkCompletedRows(old(db.memberTasks), memberId, taskId, NotesArgument(notes), now)
  {
    var existing := GetMemberTaskStatus(db.memberTasks, memberId, taskId);
    var n := NotesArgument(notes);
    if existing.Some? {
      db.memberTasks := db.memberTasks[(memberId, taskId) :=
        existing.value.(completed := 1, notes := Some(n), updatedAt := now)];
    } else {
      db.memberTasks := db.memberTasks[(memberId, taskId) :=
        MemberTaskRow(1, 0, None, None, Some(n), now, now)];
    }
  }

  /** `Task.verifyTask`: the member_tasks upsert, then the owning tier's achievement check. */
  method VerifyTask(db: Database, memberId: Id, taskId: Id, verifiedBy: Id, notes: Option<string>,
                    now: Timestamp)
    modifies db`memberTasks, db`memberTiers
    ensures db.memberTasks
         == VerifyTaskRows(old(db.memberTasks), memberId, taskId, verifiedBy, NotesArgument(notes), now)
    ensures db.memberTiers
         == VerifyTaskTiers(db.tasks, db.memberTasks, old(db.memberTiers), memberId, taskId, now)
  {
    var existing := GetMemberTaskStatus(db.memberTasks, memberId, taskId);
    var n := NotesArgument(notes);
    if existing.Some? {
      db.memberTasks := db.memberTasks[(memberId, taskId) :=
        existing.value.(verified := 1, verifiedBy := Some(verifiedBy), verifiedAt := Some(now),
                        notes := Some(n), updatedAt := now)];
    } else {
      db.memberTasks := db.memberTasks[(memberId, taskId) :=
        MemberTaskRow(1, 1, Some(verifiedBy), Some(now), Some(n), now, now)];
    }
    if taskId in db.tasks {
      var _ := TierModel.CheckMemberAchievement(db, memberId, db.tasks[taskId].tierId, now);
    }
  }

  // ---------------------------------------------------------------------------------------
  // The achievement engine as a state machine
  // ---------------------------------------------------------------------------------------

  /** The calls that move a member's progress: each carries its CURRENT_TIMESTAMP. */
  datatype EngineOp =
    | MarkCompletedOp(memberId: Id, taskId: Id, notes: string, at: Timestamp)
    | VerifyTaskOp(memberId: Id, taskId: Id, verifiedBy: Id, notes: string, at: Timestamp)
    | CheckAchievementOp(memberId: Id, tierId: Id, at: Timestamp)

  datatype Progress = Progress(memberTasks: map<(Id, Id), MemberTaskRow>,
                               memberTiers: map<(Id, Id), MemberTierRow>)

  function Step(tasks: map<Id, TaskRow>, p: Progress, op: EngineOp): (q: Progress)
    ensures q.memberTiers.Keys >= p.memberTiers.Keys
  {
    match op
    case MarkCompletedOp(m, t, notes, at) =>
      Progress(MarkCompletedRows(p.memberTasks, m, t, notes, at), p.memberTiers)
    case VerifyTaskOp(m, t, verifier, notes, at) =>
      var rows := VerifyTaskRows(p.memberTasks, m, t, verifier, notes, at);
      Progress(rows, VerifyTaskTiers(tasks, rows, p.memberTiers, m, t, at))
    case CheckAchievementOp(m, tier, at) =>
      Progress(p.memberTasks, TierModel.AchievementStep(tasks, p.memberTasks, p.memberTiers, m, tier, at))
  }

  function Run(tasks: map<Id, TaskRow>, p: Progress, ops: seq<EngineOp>): Progress
    decreases |ops|
  {
    if ops == [] then p else Run(tasks, Step(tasks, p, ops[0]), ops[1..])
  }

  /** One call never revokes an achievement nor restamps its achieved_at. */
  lemma StepKeepsAchievements(tasks: map<Id, TaskRow>, p: Progress, op: EngineOp)
    ensures forall m, t :: TierModel.Achieved(p.memberTiers, m, t) ==>
      TierModel.Achieved(Step(tasks, p, op).memberTiers, m, t)
      && Step(tasks, p, op).memberTiers[(m, t)] == p.memberTiers[(m, t)]
  {
    match op
    case MarkCompletedOp(_, _, _, _) =>
    case VerifyTaskOp(m, t, verifier, notes, at) =>
      var rows := VerifyTaskRows(p.memberTasks, m, t, verifier, notes, at);
      if t in tasks {
        assert Step(tasks, p, op).memberTiers
            == TierModel.AchievementStep(tasks, rows, p.memberTiers, m, tasks[t].tierId, at);
      }
    case CheckAchievementOp(_, _, _) =>
  }

  /**
    Achievement is monotone over any sequence of calls: once a (member, tier) row is
    achieved it stays achieved, with its first achieved_at, and no member_tiers row is removed.
  */
  lemma {:induction false} RunKeepsAchievements(tasks: map<Id, TaskRow>, p: Progress, ops: seq<EngineOp>)
    ensures Run(tasks, p, ops).memberTiers.Keys >= p.memberTiers.Keys
    ensures forall m, t :: TierModel.Achieved(p.memberTiers, m, t) ==>
      TierModel.Achieved(Run(tasks, p, ops).memberTiers, m, t)
      && Run(tasks, p, ops).memberTiers[(m, t)] == p.memberTiers[(m, t)]
    decreases |ops|
  {
    if ops != [] {
      var q := Step(tasks, p, ops[0]);
      StepKeepsAchievements(tasks, p, ops[0]);
      RunKeepsAchievements(tasks, q, ops[1..]);
    }
  }

  // ---------------------------------------------------------------------------------------
  // getMemberTasks
  // ---------------------------------------------------------------------------------------

  /** One row of `getMemberTasks`: the task, its tier's name, and the member's status or null. */
  datatype MemberTaskEntry = MemberTaskEntry(
    taskId: Id, task: TaskRow, tierName: string, status: Option<MemberTaskRow>,
    verifiedByEmail: Option<string>)

  /** The row `getMemberTasks` produces for a task of an existing tier. */
  function EntryFor(users: map<Id, UserRow>, tiers: map<Id, TierRow>, tasks: map<Id, TaskRow>,
                    memberTasks: map<(Id, Id), MemberTaskRow>, memberId: Id, taskId: Id)
    : (e: MemberTaskEntry)
    requires taskId in tasks && tasks[taskId].tierId in tiers
    ensures e.taskId == taskId && e.task == tasks[taskId]
    ensures e.tierName == tiers[tasks[taskId].tierId].name
    ensures e.status == GetMemberTaskStatus(memberTasks, memberId, taskId)
  {
    var status := GetMemberTaskStatus(memberTasks, memberId, taskId);
    var email :=
      if status.Some? && status.value.verifiedBy.Some? && status.value.verifiedBy.value in users
      then Some(users[status.value.verifiedBy.value].email) else None;
    MemberTaskEntry(taskId, tasks[taskId], tiers[tasks[taskId].tierId].name, status, email)
  }

  /** The ORDER BY key `tier.sort_order, t.sort_order` of a task. */
  function TierThenTaskKey(tiers: map<Id, TierRow>, tasks: map<Id, TaskRow>): Id -> seq<Sql.Value> {
    (t: Id) =>
      if t in tasks && tasks[t].tierId in tiers
      then [Sql.Int(tiers[tasks[t].tierId].sortOrder), Sql.Int(tasks[t].sortOrder)]
      else []
  }

  /** `a` may come before `b`: a lower tier sort_order, or the same one and a lower task sort_order. */
  ghost predicate ListedBefore(tiers: map<Id, TierRow>, tasks: map<Id, TaskRow>, a: Id, b: Id) {
    && a in tasks && tasks[a].tierId in tiers && b in tasks && tasks[b].tierId in tiers
    && var ta, tb := tiers[tasks[a].tierId].sortOrder, tiers[tasks[b].tierId].sortOrder;
       ta < tb || (ta == tb && tasks[a].sortOrder <= tasks[b].sortOrder)
  }

  lemma TierThenTaskKeyOrder(tiers: map<Id, TierRow>, tasks: map<Id, TaskRow>, a: Id, b: Id)
    requires a in tasks && tasks[a].tierId in tiers && b in tasks && tasks[b].tierId in tiers
    requires Sql.CompareKey(TierThenTaskKey(tiers, tasks)(a), TierThenTaskKey(tiers, tasks)(b)) <= 0
    ensures ListedBefore(tiers, tasks, a, b)
  {
    Sql.IntPairKeyOrder(tiers[tasks[a].tierId].sortOrder, tasks[a].sortOrder,
                        tiers[tasks[b].tierId].sortOrder, tasks[b].sortOrder);
  }

  /** The tasks `getMemberTasks` lists (those whose tier exists), each once, in its order. */
  ghost function ListedTasks(tiers: map<Id, TierRow>, tasks: map<Id, TaskRow>): (ids: seq<Id>)
    ensures Distinct(ids)
    ensures forall t :: t in ids <==> t in tasks && tasks[t].tierId in tiers
    ensures forall i, j :: 0 <= i < j < |ids| ==> ListedBefore(tiers, tasks, ids[i], ids[j])
  {
    var listed: set<Id> := set t | t in tasks.Keys && tasks[t].tierId in tiers;
    var ids := Sql.OrderBy(listed, TierThenTaskKey(tiers, tasks));
    assert forall i, j :: 0 <= i < j < |ids| ==> ListedBefore(tiers, tasks, ids[i], ids[j]) by {
      forall i, j | 0 <= i < j < |ids| ensures ListedBefore(tiers, tasks, ids[i], ids[j]) {
        assert ids[i] in ids && ids[j] in ids;
        TierThenTaskKeyOrder(tiers, tasks, ids[i], ids[j]);
      }
    }
    ids
  }

  /**
    `Task.getMemberTasks`: the row of every listed task, in the listed order (tier sort_order,
    then task sort_order), with the member's status or null where the member has no row.
  */
  ghost function GetMemberTasks(users: map<Id, UserRow>, tiers: map<Id, TierRow>,
                                tasks: map<Id, TaskRow>, memberTasks: map<(Id, Id), MemberTaskRow>,
                                memberId: Id): (r: seq<MemberTaskEntry>)
    ensures var ids := ListedTasks(tiers, tasks);
      |r| == |ids| && forall i :: 0 <= i < |r| ==> r[i] == EntryFor(users, tiers, tasks, memberTasks, memberId, ids[i])
  {
    Entries(users, tiers, tasks, memberTasks, memberId, ListedTasks(tiers, tasks))
  }

  /**
    Every task of an existing tier appears exactly once, with null status exactly where the
    member has no row, and rows come in tier-then-task order.
  */
  lemma GetMemberTasksListsEveryTask(users: map<Id, UserRow>, tiers: map<Id, TierRow>,
                                     tasks: map<Id, TaskRow>, memberTasks: map<(Id, Id), MemberTaskRow>,
                                     memberId: Id, t: Id)
    ensures var r := GetMemberTasks(users, tiers, tasks, memberTasks, memberId);
      (exists i :: 0 <= i < |r| && r[i].taskId == t) <==> t in tasks && tasks[t].tierId in tiers
    ensures var r := GetMemberTasks(users, tiers, tasks, memberTasks, memberId);
      forall i :: 0 <= i < |r| && r[i].taskId == t ==> (r[i].status.None? <==> (memberId, t) !in memberTasks)
    ensures var r := GetMemberTasks(users, tiers, tasks, memberTasks, memberId);
      forall i, j :: 0 <= i < j < |r| ==>
        r[i].taskId != r[j].taskId && ListedBefore(tiers, tasks, r[i].taskId, r[j].taskId)
  {
    var ids := ListedTasks(tiers, tasks);
    var r := GetMemberTasks(users, tiers, tasks, memberTasks, memberId);
    if t in tasks && tasks[t].tierId in tiers {
      var i :| 0 <= i < |ids| && ids[i] == t;
      assert r[i].taskId == t;
    }
    forall i | 0 <= i < |r| ensures r[i].taskId == ids[i] {
      assert ids[i] in ids;
    }
  }

  /** The `getMemberTasks` row of each listed task, in the listed order. */
  function Entries(users: map<Id, UserRow>, tiers: map<Id, TierRow>, tasks: map<Id, TaskRow>,
                   memberTasks: map<(Id, Id), MemberTaskRow>, memberId: Id, ids: seq<Id>)
    : (r: seq<MemberTaskEntry>)
    requires forall t :: t in ids ==> t in tasks && tasks[t].tierId in tiers
    ensures |r| == |ids|
    ensures forall i :: 0 <= i < |ids| ==>
      r[i] == EntryFor(users, tiers, tasks, memberTasks, memberId, ids[i]) && r[i].taskId == ids[i]
  {
    seq(|ids|, i requires 0 <= i < |ids| => EntryFor(users, tiers, tasks, memberTasks, memberId, ids[i]))
  }
}
