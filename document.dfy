/**
  Documents of src/models/Document.js: rows that may name a tier, the two ways the model
  decides whether a member may read one (the per-document check that counts completed tasks,
  and the listing that qualifies tiers with a grouped count), and the writes that store a
  falsy tier as NULL.
*/
module DocumentModel {
  import opened Common
  import opened Schema
  import Sql
  import TierModel

  // ---------------------------------------------------------------------------------------
  // create / update / delete
  // ---------------------------------------------------------------------------------------

  /**
    The properties `create` and `update` read from their `data` argument. `None` stands for
    an undefined or null property; `tierId` is `None` also for the other falsy values a form
    can send ('' or false), so that `Some(0)` is the number 0.
  */
  datatype DocumentData = DocumentData(
    title: Option<string>, description: Option<string>, filePath: Option<string>,
    fileName: Option<string>, fileSize: Option<int>, mimeType: Option<string>,
    tierId: Option<Id>, uploadedBy: Option<Id>)

  /** The `data.tierId || null` argument: every falsy tier becomes NULL. */
  function StoredTier(tierId: Option<Id>): (r: Option<Id>)
    ensures r.None? <==> (tierId.None? || tierId.value == 0)
    ensures r.Some? ==> r == tierId
  {
    if tierId.Some? && tierId.value != 0 then tierId else None
  }

  /**
    The row `create` inserts, or `None` when one of the NOT NULL columns (title, file_path,
    file_name, uploaded_by) would receive NULL and SQLite refuses the insert.
  */
  function NewDocumentRow(data: DocumentData, now: Timestamp): (r: Option<DocumentRow>)
    ensures r.None? <==>
      (data.title.None? || data.filePath.None? || data.fileName.None? || data.uploadedBy.None?)
    ensures r.Some? ==> r.value == DocumentRow(
      data.title.value, data.description, data.filePath.value, data.fileName.value,
      data.fileSize, data.mimeType, StoredTier(data.tierId), data.uploadedBy.value, now, now)
  {
    if data.title.None? || data.filePath.None? || data.fileName.None? || data.uploadedBy.None? then
      None
    else
      Some(DocumentRow(
        data.title.value, data.description, data.filePath.value, data.fileName.value,
        data.fileSize, data.mimeType, StoredTier(data.tierId), data.uploadedBy.value, now, now))
  }

  /** `Document.create`: inserts the new row under the next id and returns that id. */
  method Create(db: Database, data: DocumentData, now: Timestamp) returns (r: Result<Id>)
    modifies db`documents, db`documentSeq
    ensures r.ConstraintViolation? <==> NewDocumentRow(data, now).None?
    ensures r.Ok? ==> (r.value == old(db.documentSeq) && db.documentSeq == old(db.documentSeq) + 1
      && db.documents == old(db.documents)[r.value := NewDocumentRow(data, now).value])
    ensures r.ConstraintViolation? ==>
      db.documents == old(db.documents) && db.documentSeq == old(db.documentSeq)
    ensures old(db.Valid()) ==> db.Valid()
    ensures old(db.Valid()) && r.Ok? ==> r.value !in old(db.documents)
  {
    var row := NewDocumentRow(data, now);
    if row.None? {
      return ConstraintViolation;
    }
    r := Ok(db.documentSeq);
    db.documents := db.documents[db.documentSeq := row.value];
    db.documentSeq := db.documentSeq + 1;
  }

  /**
    `Document.update` on the table. It sets title, description, tier_id and updated_at of the
    row and leaves the file columns; an unknown id matches no row and changes nothing; a NULL
    title is refused by the NOT NULL constraint.
  */
  function UpdateDocumentRows(documents: map<Id, DocumentRow>, id: Id, data: DocumentData,
                              now: Timestamp): (r: Result<map<Id, DocumentRow>>)
    ensures r.ConstraintViolation? <==> id in documents && data.title.None?
    ensures r.Ok? ==> r.value.Keys == documents.Keys
    ensures r.Ok? && id !in documents ==> r.value == documents
    ensures r.Ok? && id in documents ==>
      var d := documents[id];
      r.value[id] == DocumentRow(
        data.title.value, data.description, d.filePath, d.fileName, d.fileSize, d.mimeType,
        StoredTier(data.tierId), d.uploadedBy, d.createdAt, now)
    ensures r.Ok? ==> forall k :: k in documents && k != id ==> r.value[k] == documents[k]
  {
    if id !in documents then Ok(documents)
    else if data.title.None? then ConstraintViolation
    else
      Ok(documents[id := documents[id].(
        title := data.title.value, description := data.description,
        tierId := StoredTier(data.tierId), updatedAt := now)])
  }

  method Update(db: Database, id: Id, data: DocumentData, now: Timestamp) returns (r: Result<()>)
    modifies db`documents
    ensures var u := UpdateDocumentRows(old(db.documents), id, data, now);
      (r.Ok? <==> u.Ok?) && db.documents == (if u.Ok? then u.value else old(db.documents))
  {
    var u := UpdateDocumentRows(db.documents, id, data, now);
    if u.ConstraintViolation? {
      return ConstraintViolation;
    }
    db.documents := u.value;
    r := Ok(());
  }

  /** `Document.delete`: removes the row with this id, if any. */
  method Delete(db: Database, id: Id)
    modifies db`documents
    ensures db.documents == old(db.documents) - {id}
    ensures forall k :: k in db.documents <==> k in old(db.documents) && k != id
  {
    db.documents := db.documents - {id};
  }

  // ---------------------------------------------------------------------------------------
  // canMemberAccess
  // ---------------------------------------------------------------------------------------

  /**
    The member's tasks of the tier that have a member_tasks row with completed = 1: the rows
    `COUNT(*)` counts once member_tasks is joined with tasks.
  */
  function CompletedTaskIds(tasks: map<Id, TaskRow>, memberTasks: map<(Id, Id), MemberTaskRow>,
                            memberId: Id, tierId: Id): (c: set<Id>)
    ensures c <= TierModel.TierTaskIds(tasks, tierId)
    ensures forall t :: t in c <==>
      (t in tasks && tasks[t].tierId == tierId
       && (memberId, t) in memberTasks && memberTasks[(memberId, t)].completed == 1)
  {
    set t | t in tasks.Keys && tasks[t].tierId == tierId
      && (memberId, t) in memberTasks && memberTasks[(memberId, t)].completed == 1
  }

  /** The `total === required` comparison: as many completed rows as the tier has tasks. */
  predicate CountsMatch(tasks: map<Id, TaskRow>, memberTasks: map<(Id, Id), MemberTaskRow>,
                        memberId: Id, tierId: Id)
  {
    |CompletedTaskIds(tasks, memberTasks, memberId, tierId)| == |TierModel.TierTaskIds(tasks, tierId)|
  }

  /** Every task of the tier is completed by the member; vacuous for a tier without tasks. */
  ghost predicate AllTasksCompleted(tasks: map<Id, TaskRow>, memberTasks: map<(Id, Id), MemberTaskRow>,
                                    memberId: Id, tierId: Id)
  {
    forall t :: t in tasks && tasks[t].tierId == tierId ==>
      (memberId, t) in memberTasks && memberTasks[(memberId, t)].completed == 1
  }

  /** The count comparison says exactly that every task of the tier is completed. */
  lemma CountsMatchIffAllCompleted(tasks: map<Id, TaskRow>, memberTasks: map<(Id, Id), MemberTaskRow>,
                                   memberId: Id, tierId: Id)
    ensures CountsMatch(tasks, memberTasks, memberId, tierId)
        <==> AllTasksCompleted(tasks, memberTasks, memberId, tierId)
  {
    var done := CompletedTaskIds(tasks, memberTasks, memberId, tierId);
    var all := TierModel.TierTaskIds(tasks, tierId);
    if CountsMatch(tasks, memberTasks, memberId, tierId) {
      TierModel.SubsetOfSameSize(done, all);
    }
    if AllTasksCompleted(tasks, memberTasks, memberId, tierId) {
      assert done == all;
    }
  }

  /** `Document.canMemberAccess`: may the member open this document? */
  function CanMemberAccess(documents: map<Id, DocumentRow>, tasks: map<Id, TaskRow>,
                           memberTasks: map<(Id, Id), MemberTaskRow>, memberId: Id, documentId: Id)
    : (r: bool)
    ensures documentId !in documents ==> !r
    ensures documentId in documents && StoredTier(documents[documentId].tierId).None? ==> r
    ensures documentId in documents && StoredTier(documents[documentId].tierId).Some? ==>
      (r <==> AllTasksCompleted(tasks, memberTasks, memberId, documents[documentId].tierId.value))
  {
    if documentId !in documents then false
    else
      var tierId := documents[documentId].tierId;
      if tierId.None? || tierId.value == 0 then true
      else
        CountsMatchIffAllCompleted(tasks, memberTasks, memberId, tierId.value);
        CountsMatch(tasks, memberTasks, memberId, tierId.value)
  }

  /**
    Only completion counts: verification flags and member_tiers play no part, so a member whose
    every task of the tier is completed but not verified may open the document, although the
    tier is not achieved by the design's rule.
  */
  lemma CompletionWithoutVerificationGrantsAccess(
    documents: map<Id, DocumentRow>, tasks: map<Id, TaskRow>,
    memberTasks: map<(Id, Id), MemberTaskRow>, memberId: Id, documentId: Id, t: Id)
    requires documentId in documents && StoredTier(documents[documentId].tierId).Some?
    requires var tierId := documents[documentId].tierId.value;
      AllTasksCompleted(tasks, memberTasks, memberId, tierId)
      && t in tasks && tasks[t].tierId == tierId && memberTasks[(memberId, t)].verified == 0
    ensures CanMemberAccess(documents, tasks, memberTasks, memberId, documentId)
    ensures !TierModel.TierFullyVerified(tasks, memberTasks, memberId, documents[documentId].tierId.value)
  {
  }

  // ---------------------------------------------------------------------------------------
  // getAccessibleByMember
  // ---------------------------------------------------------------------------------------

  /** The tier ids that occur in tasks: the groups `GROUP BY t.tier_id` can form. */
  function TaskTierIds(tasks: map<Id, TaskRow>): (s: set<Id>)
    ensures forall tierId :: tierId in s <==> exists t :: t in tasks && tasks[t].tierId == tierId
  {
    var s := set t | t in tasks.Keys :: tasks[t].tierId;
    assert forall tierId :: tierId in s ==> exists t :: t in tasks && tasks[t].tierId == tierId;
    s
  }

  /**
    A tier passes the grouped query when the member has a completed row in it (the group
    exists) and the group's count equals the tier's task count (the HAVING clause).
  */
  predicate Qualifies(tasks: map<Id, TaskRow>, memberTasks: map<(Id, Id), MemberTaskRow>,
                      memberId: Id, tierId: Id)
  {
    |CompletedTaskIds(tasks, memberTasks, memberId, tierId)| != 0
      && CountsMatch(tasks, memberTasks, memberId, tierId)
  }

  /** The `achievedTiers` rows of `getAccessibleByMember`, as the set of their tier ids. */
  function QualifyingTiers(tasks: map<Id, TaskRow>, memberTasks: map<(Id, Id), MemberTaskRow>,
                           memberId: Id): (q: set<Id>)
    ensures forall tierId :: tierId in q <==> Qualifies(tasks, memberTasks, memberId, tierId)
  {
    var q := set tierId | tierId in TaskTierIds(tasks) && Qualifies(tasks, memberTasks, memberId, tierId);
    assert forall tierId :: Qualifies(tasks, memberTasks, memberId, tierId) ==> tierId in q by {
      forall tierId | Qualifies(tasks, memberTasks, memberId, tierId)
        ensures tierId in q
      {
        var c := CompletedTaskIds(tasks, memberTasks, memberId, tierId);
        var t :| t in c;
        assert tierId in TaskTierIds(tasks);
      }
    }
    q
  }

  /** A tier qualifies exactly when it has a task and the member completed all of its tasks. */
  lemma QualifiesIffCompletedTier(tasks: map<Id, TaskRow>, memberTasks: map<(Id, Id), MemberTaskRow>,
                                  memberId: Id, tierId: Id)
    ensures Qualifies(tasks, memberTasks, memberId, tierId)
        <==> (exists t :: t in tasks && tasks[t].tierId == tierId)
             && AllTasksCompleted(tasks, memberTasks, memberId, tierId)
  {
    CountsMatchIffAllCompleted(tasks, memberTasks, memberId, tierId);
    var done := CompletedTaskIds(tasks, memberTasks, memberId, tierId);
    if Qualifies(tasks, memberTasks, memberId, tierId) {
      var t :| t in done;
    }
    if (exists t :: t in tasks && tasks[t].tierId == tierId)
       && AllTasksCompleted(tasks, memberTasks, memberId, tierId) {
      var t :| t in tasks && tasks[t].tierId == tierId;
      assert t in done;
    }
  }

  /** The documents the first query's WHERE clause keeps: `d.tier_id IS NULL`. */
  function UntieredIds(documents: map<Id, DocumentRow>): (s: set<Id>)
    ensures forall d :: d in s <==> d in documents && documents[d].tierId.None?
  {
    set d | d in documents.Keys && documents[d].tierId.None?
  }

  /** The second query's WHERE clause: `d.tier_id IS NULL OR d.tier_id IN (...)`. */
  function UntieredOrInIds(documents: map<Id, DocumentRow>, q: set<Id>): (s: set<Id>)
    ensures forall d :: d in s <==>
      d in documents && (documents[d].tierId.None? || documents[d].tierId.value in q)
  {
    set d | d in documents.Keys && (documents[d].tierId.None? || documents[d].tierId.value in q)
  }

  /** The ORDER BY key `created_at DESC`: newer rows compare smaller. */
  function NewestFirstKey(documents: map<Id, DocumentRow>): Id -> seq<Sql.Value> {
    (d: Id) => if d in documents then [Sql.Int(-documents[d].createdAt)] else []
  }

  /**
    The documents `getAccessibleByMember` selects: the untiered ones when no tier qualifies,
    otherwise also those of a qualifying tier. Both branches keep the same rows.
  */
  function AccessibleSet(documents: map<Id, DocumentRow>, tasks: map<Id, TaskRow>,
                         memberTasks: map<(Id, Id), MemberTaskRow>, memberId: Id): (s: set<Id>)
    ensures s <= documents.Keys
    ensures forall d :: d in s <==>
      (d in documents && (documents[d].tierId.None?
        || Qualifies(tasks, memberTasks, memberId, documents[d].tierId.value)))
  {
    var q := QualifyingTiers(tasks, memberTasks, memberId);
    if q == {} then UntieredIds(documents) else UntieredOrInIds(documents, q)
  }

  /** Rows of `documents` sorted by `NewestFirstKey` are in descending `created_at` order. */
  lemma NewestFirst(documents: map<Id, DocumentRow>, r: seq<Id>)
    requires forall i :: 0 <= i < |r| ==> r[i] in documents
    requires Sql.SortedBy(r, NewestFirstKey(documents))
    ensures forall i, j :: 0 <= i < j < |r| ==> documents[r[i]].createdAt >= documents[r[j]].createdAt
  {
    forall i, j | 0 <= i < j < |r|
      ensures documents[r[i]].createdAt >= documents[r[j]].createdAt
    {
      var a, b := r[i], r[j];
      assert a in documents && b in documents;
      assert NewestFirstKey(documents)(a) == [Sql.Int(-documents[a].createdAt)];
      assert NewestFirstKey(documents)(b) == [Sql.Int(-documents[b].createdAt)];
      Sql.IntKeyOrder(-documents[a].createdAt, -documents[b].createdAt);
    }
  }

  /** `Document.getAccessibleByMember` as the ids of the rows it returns, newest first. */
  ghost function AccessibleIds(documents: map<Id, DocumentRow>, tasks: map<Id, TaskRow>,
                               memberTasks: map<(Id, Id), MemberTaskRow>, memberId: Id): (r: seq<Id>)
    ensures Distinct(r) && forall i :: 0 <= i < |r| ==> r[i] in documents
    ensures forall d :: d in r <==> d in AccessibleSet(documents, tasks, memberTasks, memberId)
    ensures forall i, j :: 0 <= i < j < |r| ==> documents[r[i]].createdAt >= documents[r[j]].createdAt
  {
    var rows := AccessibleSet(documents, tasks, memberTasks, memberId);
    var r := Sql.OrderBy(rows, NewestFirstKey(documents));
    Sql.OrderByWithin(rows, NewestFirstKey(documents), documents.Keys);
    NewestFirst(documents, r);
    r
  }

  /** The rows of `getAccessibleByMember` (without the joined display columns). */
  ghost function GetAccessibleByMember(documents: map<Id, DocumentRow>, tasks: map<Id, TaskRow>,
                                       memberTasks: map<(Id, Id), MemberTaskRow>, memberId: Id)
    : (r: seq<(Id, DocumentRow)>)
    ensures var ids := AccessibleIds(documents, tasks, memberTasks, memberId);
      |r| == |ids| && forall i :: 0 <= i < |r| ==> r[i] == (ids[i], documents[ids[i]])
  {
    var ids := AccessibleIds(documents, tasks, memberTasks, memberId);
    seq(|ids|, i requires 0 <= i < |ids| => (ids[i], documents[ids[i]]))
  }

  // ---------------------------------------------------------------------------------------
  // the two rules compared
  // ---------------------------------------------------------------------------------------

  /**
    For a document whose tier has at least one task, the listing and the per-document check
    agree.
  */
  lemma ListingAgreesWithAccessForTiersWithTasks(
    documents: map<Id, DocumentRow>, tasks: map<Id, TaskRow>,
    memberTasks: map<(Id, Id), MemberTaskRow>, memberId: Id, documentId: Id, t: Id)
    requires documentId in documents && StoredTier(documents[documentId].tierId).Some?
    requires t in tasks && tasks[t].tierId == documents[documentId].tierId.value
    ensures documentId in AccessibleIds(documents, tasks, memberTasks, memberId)
        <==> CanMemberAccess(documents, tasks, memberTasks, memberId, documentId)
  {
    QualifiesIffCompletedTier(tasks, memberTasks, memberId, documents[documentId].tierId.value);
  }

  /** An untiered document is listed and may be opened by every member. */
  lemma UntieredDocumentIsOpenToAll(
    documents: map<Id, DocumentRow>, tasks: map<Id, TaskRow>,
    memberTasks: map<(Id, Id), MemberTaskRow>, memberId: Id, documentId: Id)
    requires documentId in documents && documents[documentId].tierId.None?
    ensures documentId in AccessibleIds(documents, tasks, memberTasks, memberId)
    ensures CanMemberAccess(documents, tasks, memberTasks, memberId, documentId)
  {
  }

  /**
    A document of a tier without tasks may be opened by every member (0 = 0), yet is never
    listed, because such a tier forms no group; and the tier counts as achieved by nobody.
  */
  lemma ZeroTaskTierDisagreement(
    documents: map<Id, DocumentRow>, tasks: map<Id, TaskRow>,
    memberTasks: map<(Id, Id), MemberTaskRow>, memberId: Id, documentId: Id)
    requires documentId in documents && StoredTier(documents[documentId].tierId).Some?
    requires TierModel.TierTaskIds(tasks, documents[documentId].tierId.value) == {}
    ensures CanMemberAccess(documents, tasks, memberTasks, memberId, documentId)
    ensures documentId !in AccessibleIds(documents, tasks, memberTasks, memberId)
    ensures !TierModel.TierFullyVerified(tasks, memberTasks, memberId, documents[documentId].tierId.value)
  {
    var tierId := documents[documentId].tierId.value;
    assert forall t :: t in tasks ==> tasks[t].tierId != tierId by {
      forall t | t in tasks ensures tasks[t].tierId != tierId {
        assert t !in TierModel.TierTaskIds(tasks, tierId);
      }
    }
    QualifiesIffCompletedTier(tasks, memberTasks, memberId, tierId);
  }

  // ---------------------------------------------------------------------------------------
  // the writes and the access rule
  // ---------------------------------------------------------------------------------------

  /** A document created or updated with a falsy tier is open to every member. */
  lemma FalsyTierOpensDocument(documents: map<Id, DocumentRow>, tasks: map<Id, TaskRow>,
                               memberTasks: map<(Id, Id), MemberTaskRow>, memberId: Id,
                               id: Id, data: DocumentData, now: Timestamp)
    requires data.tierId.None? || data.tierId.value == 0
    ensures NewDocumentRow(data, now).Some? ==>
      CanMemberAccess(documents[id := NewDocumentRow(data, now).value], tasks, memberTasks, memberId, id)
    ensures var u := UpdateDocumentRows(documents, id, data, now);
      u.Ok? && id in documents ==> CanMemberAccess(u.value, tasks, memberTasks, memberId, id)
  {
  }

  /** Once deleted, a document can be opened by nobody and is listed for nobody. */
  lemma DeletedDocumentIsClosed(documents: map<Id, DocumentRow>, tasks: map<Id, TaskRow>,
                                memberTasks: map<(Id, Id), MemberTaskRow>, memberId: Id, id: Id)
    ensures !CanMemberAccess(documents - {id}, tasks, memberTasks, memberId, id)
    ensures id !in AccessibleIds(documents - {id}, tasks, memberTasks, memberId)
  {
  }

  /**
    An update changes who may open no other document: access to every other document is the
    same afterwards.
  */
  lemma UpdateKeepsOtherAccess(documents: map<Id, DocumentRow>, tasks: map<Id, TaskRow>,
                               memberTasks: map<(Id, Id), MemberTaskRow>, memberId: Id,
                               id: Id, data: DocumentData, now: Timestamp, other: Id)
    requires other != id
    requires UpdateDocumentRows(documents, id, data, now).Ok?
    ensures CanMemberAccess(UpdateDocumentRows(documents, id, data, now).value, tasks, memberTasks, memberId, other)
        == CanMemberAccess(documents, tasks, memberTasks, memberId, other)
  {
  }
}
