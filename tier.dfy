/**
  Tiers and the achievement rule of src/models/Tier.js: a member achieves a tier once the tier
  has at least one task and every task of it has a verified member_tasks row for that member.
  The member_tiers row recording this is created or flipped to achieved=1, and never reset.
*/
module TierModel {
  import opened Common
  import opened Schema
  import Sql

  // ---------------------------------------------------------------------------------------
  // Reads
  // ---------------------------------------------------------------------------------------

  /** `SELECT id FROM tasks WHERE tier_id = ?` */
  function TierTaskIds(tasks: map<Id, TaskRow>, tierId: Id): (ids: set<Id>)
    ensures forall t :: t in ids <==> t in tasks && tasks[t].tierId == tierId
  {
    set t | t in tasks.Keys && tasks[t].tierId == tierId
  }

  /** The ORDER BY key `sort_order` of a task. */
  function TaskSortKey(tasks: map<Id, TaskRow>): Id -> seq<Sql.Value> {
    (t: Id) => if t in tasks then [Sql.Int(tasks[t].sortOrder)] else []
  }

  /** Tasks sorted by `TaskSortKey` are in ascending sort_order. */
  lemma TasksBySortOrder(tasks: map<Id, TaskRow>, r: seq<Id>)
    requires forall i :: 0 <= i < |r| ==> r[i] in tasks
    requires Sql.SortedBy(r, TaskSortKey(tasks))
    ensures forall i, j :: 0 <= i < j < |r| ==> tasks[r[i]].sortOrder <= tasks[r[j]].sortOrder
  {
    forall i, j | 0 <= i < j < |r|
      ensures tasks[r[i]].sortOrder <= tasks[r[j]].sortOrder
    {
      var a, b := r[i], r[j];
      assert TaskSortKey(tasks)(a) == [Sql.Int(tasks[a].sortOrder)];
      assert TaskSortKey(tasks)(b) == [Sql.Int(tasks[b].sortOrder)];
      Sql.IntKeyOrder(tasks[a].sortOrder, tasks[b].sortOrder);
    }
  }

  /**
    `SELECT * FROM tasks WHERE tier_id = ? ORDER BY sort_order`, the query behind both
    `Tier.getWithTasks` and `Task.getByTier`: every task of the tier once, by sort_order.
  */
  ghost function TierTasks(tasks: map<Id, TaskRow>, tierId: Id): (r: seq<Id>)
    ensures Distinct(r) && forall i :: 0 <= i < |r| ==> r[i] in tasks
    ensures forall t :: t in r <==> t in tasks && tasks[t].tierId == tierId
    ensures forall i, j :: 0 <= i < j < |r| ==> tasks[r[i]].sortOrder <= tasks[r[j]].sortOrder
  {
    var r := Sql.OrderBy(TierTaskIds(tasks, tierId), TaskSortKey(tasks));
    TasksBySortOrder(tasks, r);
    r
  }

  /** The ORDER BY key `sort_order` of a tier. */
  function TierSortKey(tiers: map<Id, TierRow>): Id -> seq<Sql.Value> {
    (t: Id) => if t in tiers then [Sql.Int(tiers[t].sortOrder)] else []
  }

  /** Tiers sorted by `TierSortKey` are in ascending sort_order. */
  lemma TiersBySortOrder(tiers: map<Id, TierRow>, r: seq<Id>)
    requires forall i :: 0 <= i < |r| ==> r[i] in tiers
    requires Sql.SortedBy(r, TierSortKey(tiers))
    ensures forall i, j :: 0 <= i < j < |r| ==> tiers[r[i]].sortOrder <= tiers[r[j]].sortOrder
  {
    forall i, j | 0 <= i < j < |r|
      ensures tiers[r[i]].sortOrder <= tiers[r[j]].sortOrder
    {
      var a, b := r[i], r[j];
      assert TierSortKey(tiers)(a) == [Sql.Int(tiers[a].sortOrder)];
      assert TierSortKey(tiers)(b) == [Sql.Int(tiers[b].sortOrder)];
      Sql.IntKeyOrder(tiers[a].sortOrder, tiers[b].sortOrder);
    }
  }

  /** `Tier.getAll`: every tier once, by sort_order. */
  ghost function GetAll(tiers: map<Id, TierRow>): (r: seq<Id>)
    ensures Distinct(r) && |r| == |tiers| && forall i :: 0 <= i < |r| ==> r[i] in tiers
    ensures forall t :: t in r <==> t in tiers
    ensures forall i, j :: 0 <= i < j < |r| ==> tiers[r[i]].sortOrder <= tiers[r[j]].sortOrder
  {
    var r := Sql.OrderBy(tiers.Keys, TierSortKey(tiers));
    TiersBySortOrder(tiers, r);
    r
  }

  /** A tier row together with its ordered tasks, as `getWithTasks` spreads them. */
  datatype TierWithTasks = TierWithTasks(id: Id, tier: TierRow, tasks: seq<Id>)

  /** `Tier.getWithTasks`: null for an unknown tier, else the tier and its ordered tasks. */
  ghost function GetWithTasks(tiers: map<Id, TierRow>, tasks: map<Id, TaskRow>, tierId: Id)
    : (r: Option<TierWithTasks>)
    ensures r.None? <==> tierId !in tiers
    ensures r.Some? ==> r.value.id == tierId && r.value.tier == tiers[tierId]
    ensures r.Some? ==> forall t :: t in r.value.tasks <==> t in tasks && tasks[t].tierId == tierId
    ensures r.Some? ==> forall i, j :: 0 <= i < j < |r.value.tasks| ==>
      tasks[r.value.tasks[i]].sortOrder <= tasks[r.value.tasks[j]].sortOrder
  {
    if tierId !in tiers then None else Some(TierWithTasks(tierId, tiers[tierId], TierTasks(tasks, tierId)))
  }

  // ---------------------------------------------------------------------------------------
  // The achievement rule
  // ---------------------------------------------------------------------------------------

  /** The tasks among `taskIds` that have a verified=1 row for the member. */
  function VerifiedTaskIds(memberTasks: map<(Id, Id), MemberTaskRow>, memberId: Id, taskIds: set<Id>)
    : (v: set<Id>)
    ensures v <= taskIds
    ensures forall t :: t in v <==>
      t in taskIds && (memberId, t) in memberTasks && memberTasks[(memberId, t)].verified == 1
  {
    set t | t in taskIds && (memberId, t) in memberTasks && memberTasks[(memberId, t)].verified == 1
  }

  /**
    The test `checkMemberAchievement` computes: the tier has tasks and the number of the
    member's verified rows among them equals the number of tasks.
  */
  predicate AllComplete(tasks: map<Id, TaskRow>, memberTasks: map<(Id, Id), MemberTaskRow>,
                        memberId: Id, tierId: Id)
  {
    var taskIds := TierTaskIds(tasks, tierId);
    |taskIds| != 0 && |VerifiedTaskIds(memberTasks, memberId, taskIds)| == |taskIds|
  }

  /** The rule as the design states it: the tier has a task, and every task of it is verified. */
  ghost predicate TierFullyVerified(tasks: map<Id, TaskRow>, memberTasks: map<(Id, Id), MemberTaskRow>,
                                    memberId: Id, tierId: Id)
  {
    && (exists t :: t in tasks && tasks[t].tierId == tierId)
    && (forall t :: t in tasks && tasks[t].tierId == tierId ==>
          (memberId, t) in memberTasks && memberTasks[(memberId, t)].verified == 1)
  }

  /** A subset is no larger than its superset. */
  lemma {:induction false} SubsetSize<T>(a: set<T>, b: set<T>)
    requires a <= b
    ensures |a| <= |b|
    decreases |a|
  {
    if a != {} {
      var y :| y in a;
      SubsetSize(a - {y}, b - {y});
    }
  }

  /** A subset as large as its superset is the superset itself. */
  lemma SubsetOfSameSize<T>(a: set<T>, b: set<T>)
    requires a <= b && |a| == |b|
    ensures a == b
  {
    if a != b {
      var x :| x in b && x !in a;
      SubsetSize(a, b - {x});
    }
  }

  /**
    Counting verified rows decides "every task is verified": because member_tasks holds at
    most one row per (member, task), a count equal to the task count leaves no task out.
  */
  lemma AllCompleteIffFullyVerified(tasks: map<Id, TaskRow>, memberTasks: map<(Id, Id), MemberTaskRow>,
                                    memberId: Id, tierId: Id)
    ensures AllComplete(tasks, memberTasks, memberId, tierId)
        <==> TierFullyVerified(tasks, memberTasks, memberId, tierId)
  {
    var taskIds := TierTaskIds(tasks, tierId);
    var verified := VerifiedTaskIds(memberTasks, memberId, taskIds);
    if AllComplete(tasks, memberTasks, memberId, tierId) {
      SubsetOfSameSize(verified, taskIds);
      var t :| t in taskIds;
      assert t in tasks && tasks[t].tierId == tierId;
    }
    if TierFullyVerified(tasks, memberTasks, memberId, tierId) {
      assert verified == taskIds;
      var t :| t in tasks && tasks[t].tierId == tierId;
      assert t in taskIds;
      assert |taskIds| != 0;
      assert |verified| == |taskIds|;
    }
  }

  /** The (member, tier) row records an achievement. */
  predicate Achieved(memberTiers: map<(Id, Id), MemberTierRow>, memberId: Id, tierId: Id) {
    (memberId, tierId) in memberTiers && memberTiers[(memberId, tierId)].achieved == 1
  }

  /**
    The write `checkMemberAchievement` makes once the tier is complete: a row that is already
    achieved is left alone, a row with achieved=0 is flipped and stamped, and a missing row is
    inserted achieved.
  */
  function RecordAchievement(memberTiers: map<(Id, Id), MemberTierRow>, memberId: Id, tierId: Id,
                             now: Timestamp): (r: map<(Id, Id), MemberTierRow>)
    ensures Achieved(r, memberId, tierId)
    ensures r == memberTiers[(memberId, tierId) := r[(memberId, tierId)]]
    ensures Achieved(memberTiers, memberId, tierId) ==> r == memberTiers
    ensures (memberId, tierId) in memberTiers && !Achieved(memberTiers, memberId, tierId) ==>
      r[(memberId, tierId)] == memberTiers[(memberId, tierId)].(achieved := 1, achievedAt := Some(now))
    ensures (memberId, tierId) !in memberTiers ==>
      r[(memberId, tierId)] == MemberTierRow(1, Some(now), now, now) && |r| == |memberTiers| + 1
  {
    var key := (memberId, tierId);
    if key in memberTiers && memberTiers[key].achieved == 1 then memberTiers
    else if key in memberTiers then
      memberTiers[key := memberTiers[key].(achieved := 1, achievedAt := Some(now))]
    else
      memberTiers[key := MemberTierRow(1, Some(now), now, now)]
  }

  /** member_tiers after `checkMemberAchievement(memberId, tierId)`. */
  function AchievementStep(tasks: map<Id, TaskRow>, memberTasks: map<(Id, Id), MemberTaskRow>,
                           memberTiers: map<(Id, Id), MemberTierRow>, memberId: Id, tierId: Id,
                           now: Timestamp): (r: map<(Id, Id), MemberTierRow>)
    ensures TierFullyVerified(tasks, memberTasks, memberId, tierId) ==> Achieved(r, memberId, tierId)
    ensures !TierFullyVerified(tasks, memberTasks, memberId, tierId) ==> r == memberTiers
    ensures TierTaskIds(tasks, tierId) == {} ==> r == memberTiers
    ensures r.Keys >= memberTiers.Keys
    ensures forall m, t :: Achieved(memberTiers, m, t) ==>
      Achieved(r, m, t) && r[(m, t)] == memberTiers[(m, t)]
    ensures forall k :: k in memberTiers && k != (memberId, tierId) ==> r[k] == memberTiers[k]
  {
    AllCompleteIffFullyVerified(tasks, memberTasks, memberId, tierId);
    if AllComplete(tasks, memberTasks, memberId, tierId) then
      RecordAchievement(memberTiers, memberId, tierId, now)
    else
      memberTiers
  }

  /** Running the check again, at any later time, changes nothing. */
  lemma AchievementStepIdempotent(tasks: map<Id, TaskRow>, memberTasks: map<(Id, Id), MemberTaskRow>,
                                  memberTiers: map<(Id, Id), MemberTierRow>, memberId: Id, tierId: Id,
                                  now1: Timestamp, now2: Timestamp)
    ensures var once := AchievementStep(tasks, memberTasks, memberTiers, memberId, tierId, now1);
      AchievementStep(tasks, memberTasks, once, memberId, tierId, now2) == once
  {
    AllCompleteIffFullyVerified(tasks, memberTasks, memberId, tierId);
  }

  /**
    `Tier.checkMemberAchievement`: returns whether every task of the tier is verified for the
    member (false for a tier without tasks) and records the achievement when it is.
  */
  method CheckMemberAchievement(db: Database, memberId: Id, tierId: Id, now: Timestamp)
    returns (allComplete: bool)
    modifies db`memberTiers
    ensures allComplete <==> TierFullyVerified(db.tasks, db.memberTasks, memberId, tierId)
    ensures db.memberTiers
         == AchievementStep(db.tasks, db.memberTasks, old(db.memberTiers), memberId, tierId, now)
  {
    var taskIds := TierTaskIds(db.tasks, tierId);
    if |taskIds| == 0 {
      AllCompleteIffFullyVerified(db.tasks, db.memberTasks, memberId, tierId);
      return false;
    }
    var verified := VerifiedTaskIds(db.memberTasks, memberId, taskIds);
    allComplete := |verified| == |taskIds|;
    if allComplete {
      var key := (memberId, tierId);
      if key in db.memberTiers && db.memberTiers[key].achieved == 0 {
        db.memberTiers := db.memberTiers[key := db.memberTiers[key].(achieved := 1, achievedAt := Some(now))];
      } else if key !in db.memberTiers {
        db.memberTiers := db.memberTiers[key := MemberTierRow(1, Some(now), now, now)];
      }
    }
    AllCompleteIffFullyVerified(db.tasks, db.memberTasks, memberId, tierId);
  }
}
