/** The task handlers of taskflow-backend/src/controllers/taskController.js:
    create (append at the end of a list), read a list in order, update
    (COALESCE of the text fields), delete, move (reindex the source list,
    clamp and splice into the target list, reindex it, all in one
    transaction), and the assignment handlers. Each handler is one atomic
    step on the database; its guards come first and answer before any write. */
module TaskController {
  import opened Common
  import opened Positions
  import opened Store

  // ---------------------------------------------------------------------
  // moving a task

  /** The `tasks` table after a move whose two `ORDER BY position` reads
      returned `srcOrder` (the source list without the moved task) and
      `tgtRead` (the target list), with insertion index `k`: the source
      rewrite loop, then `UPDATE tasks SET list_id`, then the target rewrite
      loop over the spliced array. */
  function Moved(tasks: map<TaskId, Task>, taskId: TaskId, targetListId: ListId, k: nat,
                 srcOrder: seq<TaskId>, tgtRead: seq<TaskId>): (after: map<TaskId, Task>)
    requires k <= |tgtRead|
    ensures after.Keys == tasks.Keys
    ensures forall id :: id in tasks ==>
              after[id].listId == if id == taskId then targetListId else tasks[id].listId
    ensures forall id :: id in tasks ==>
              after[id] == tasks[id].(listId := after[id].listId, position := after[id].position)
  {
    var rewritten := WritePositions(tasks, srcOrder);
    WritePositionsAt(tasks, srcOrder);
    var relinked :=
      if taskId in rewritten then rewritten[taskId := rewritten[taskId].(listId := targetListId)]
      else rewritten;
    WritePositionsAt(relinked, Insert(tgtRead, k, taskId));
    WritePositions(relinked, Insert(tgtRead, k, taskId))
  }

  /** The guards a move passes inside its transaction: the task exists, its
      list row exists, and the caller is a member of that list's board. */
  predicate MoveAuthorized(tasks: map<TaskId, Task>, lists: map<ListId, ListRow>,
                           members: seq<Member>, taskId: TaskId, userId: UserId)
  {
    && taskId in tasks
    && tasks[taskId].listId in lists
    && IsMember(members, lists[tasks[taskId].listId].boardId, userId)
  }

  /** The two reads of a move are possible `ORDER BY position` results: the
      source list without the moved task, on the state before the move; the
      target list after the source rewrite. As written, the target read does
      not exclude the moved task; `excludeMoved` is the corrected read. */
  ghost predicate MoveReads(tasks: map<TaskId, Task>, taskId: TaskId, targetListId: ListId,
                            srcOrder: seq<TaskId>, tgtRead: seq<TaskId>, excludeMoved: bool)
    requires taskId in tasks
  {
    var src := tasks[taskId].listId;
    var rewritten := WritePositions(tasks, srcOrder);
    var target := ListPositions(rewritten, targetListId);
    && OrderedRead(ListPositions(tasks, src) - {taskId}, srcOrder)
    && OrderedRead(if excludeMoved then target - {taskId} else target, tgtRead)
  }

  /** The store fails at one of the first `writes` write statements. */
  predicate FaultWithin(fault: Option<nat>, writes: nat)
  {
    fault.Some? && fault.value < writes
  }

  /** One rewrite loop `UPDATE tasks SET position = i + 1 WHERE id = order[i]`
      inside a transaction whose write statements so far number `issued`;
      `fault` is the index of the write statement the store rejects, if any. */
  method RewritePositions(tx: map<TaskId, Task>, order: seq<TaskId>, issued: nat, fault: Option<nat>)
    returns (after: map<TaskId, Task>, failed: bool)
    ensures failed <==> fault.Some? && issued <= fault.value < issued + |order|
    ensures !failed ==> after == WritePositions(tx, order)
  {
    after := tx;
    var i := 0;
    while i < |order|
      invariant 0 <= i <= |order|
      invariant after == WritePositions(tx, order[..i])
      invariant !(fault.Some? && issued <= fault.value < issued + i)
    {
      if fault == Some(issued + i) {
        return after, true;
      }
      var id := order[i];
      assert order[..i + 1][..i] == order[..i];
      if id in after {
        after := after[id := after[id].(position := i + 1)];
      }
      i := i + 1;
    }
    assert order[..i] == order;
    failed := false;
  }

  /** The second half of a move's transaction, on the state `tx` the source
      rewrite left: read the target list (with or without the moved task),
      clamp the index, splice the task in, `UPDATE tasks SET list_id` (write
      statement `issued`), then rewrite the target positions. */
  method MoveIntoTarget(tx: map<TaskId, Task>, taskId: TaskId, targetListId: ListId, newPosition: int,
                        issued: nat, fault: Option<nat>, excludeMoved: bool)
    returns (after: map<TaskId, Task>, ghost tgtRead: seq<TaskId>, failed: bool)
    requires taskId in tx
    ensures var target := ListPositions(tx, targetListId);
            OrderedRead(if excludeMoved then target - {taskId} else target, tgtRead)
    ensures failed <==> fault.Some? && issued <= fault.value < issued + |tgtRead| + 2
    ensures !failed ==>
              after == WritePositions(tx[taskId := tx[taskId].(listId := targetListId)],
                                      Insert(tgtRead, InsertIndex(newPosition, |tgtRead|), taskId))
  {
    var targetRows := ListPositions(tx, targetListId);
    var targetIds := SelectOrdered(if excludeMoved then targetRows - {taskId} else targetRows);
    tgtRead := targetIds;
    var insertIndex := InsertIndex(newPosition, |targetIds|);
    var tasksArray := Insert(targetIds, insertIndex, taskId);
    if fault == Some(issued) {
      return tx, tgtRead, true;                             // UPDATE list_id failed
    }
    after := tx[taskId := tx[taskId].(listId := targetListId)];
    after, failed := RewritePositions(after, tasksArray, issued + 1, fault);
  }

  /** The transaction of a move, after its argument check. The read of the
      target list includes the moved task as written, and excludes it when
      `excludeMoved` holds. Any error rolls the transaction back: the table
      keeps its state and the error reaches Express's default handler. */
  method MoveTransaction(db: Database, taskId: TaskId, targetListId: ListId, newPosition: int,
                         userId: UserId, fault: Option<nat>, excludeMoved: bool)
    returns (status: int, ghost srcOrder: seq<TaskId>, ghost tgtRead: seq<TaskId>)
    requires db.Valid()
    modifies db`tasks
    ensures db.Valid()
    ensures status == HTTP_OK || status == HTTP_SERVER_ERROR
    ensures status == HTTP_SERVER_ERROR ==> db.tasks == old(db.tasks)
    ensures status == HTTP_OK <==>
              MoveAuthorized(old(db.tasks), db.lists, db.members, taskId, userId)
              && !FaultWithin(fault, |srcOrder| + |tgtRead| + 2)
    ensures status == HTTP_OK ==>
              && MoveReads(old(db.tasks), taskId, targetListId, srcOrder, tgtRead, excludeMoved)
              && db.tasks == Moved(old(db.tasks), taskId, targetListId,
                                   InsertIndex(newPosition, |tgtRead|), srcOrder, tgtRead)
  {
    srcOrder, tgtRead := [], [];
    var tx := db.tasks;                                     // BEGIN
    // Each guard throws: "Task not found", `rows[0].board_id` of no list
    // row, and "Access denied" all end in ROLLBACK.
    if !MoveAuthorized(tx, db.lists, db.members, taskId, userId) {
      return HTTP_SERVER_ERROR, srcOrder, tgtRead;
    }
    var sourceListId := tx[taskId].listId;
    var sourceIds := SelectOrdered(ListPositions(tx, sourceListId) - {taskId});
    srcOrder := sourceIds;
    var failed;
    tx, failed := RewritePositions(tx, sourceIds, 0, fault);
    if failed {
      return HTTP_SERVER_ERROR, srcOrder, tgtRead;         // ROLLBACK
    }
    WritePositionsKeys(db.tasks, sourceIds);
    ghost var rewritten := tx;
    tx, tgtRead, failed := MoveIntoTarget(tx, taskId, targetListId, newPosition, |sourceIds|, fault, excludeMoved);
    if failed {
      return HTTP_SERVER_ERROR, srcOrder, tgtRead;         // ROLLBACK
    }
    assert rewritten == WritePositions(db.tasks, srcOrder) && taskId in rewritten;
    assert MoveReads(db.tasks, taskId, targetListId, srcOrder, tgtRead, excludeMoved);
    assert tx == Moved(db.tasks, taskId, targetListId, InsertIndex(newPosition, |tgtRead|), srcOrder, tgtRead);
    assert tx.Keys == db.tasks.Keys;
    db.tasks := tx;                                         // COMMIT
    status := HTTP_OK;
  }

  /** `PATCH /tasks/:taskId/move`. A missing target list or a falsy
      `newPosition` (0 included: it is not clamped) answers 400 before the
      transaction begins. */
  method MoveTask(db: Database, taskId: TaskId, targetListId: Option<ListId>, newPosition: Option<int>,
                  userId: UserId, fault: Option<nat>)
    returns (status: int, ghost srcOrder: seq<TaskId>, ghost tgtRead: seq<TaskId>)
    requires db.Valid()
    modifies db`tasks
    ensures db.Valid()
    ensures status == HTTP_OK || status == HTTP_BAD_REQUEST || status == HTTP_SERVER_ERROR
    ensures status != HTTP_OK ==> db.tasks == old(db.tasks)
    ensures status == HTTP_BAD_REQUEST <==> !Truthy(targetListId) || !Truthy(newPosition)
    ensures status == HTTP_OK <==>
              && Truthy(targetListId) && Truthy(newPosition)
              && MoveAuthorized(old(db.tasks), db.lists, db.members, taskId, userId)
              && !FaultWithin(fault, |srcOrder| + |tgtRead| + 2)
    ensures status == HTTP_OK ==>
              && MoveReads(old(db.tasks), taskId, targetListId.value, srcOrder, tgtRead, false)
              && db.tasks == Moved(old(db.tasks), taskId, targetListId.value,
                                   InsertIndex(newPosition.value, |tgtRead|), srcOrder, tgtRead)
  {
    if !Truthy(targetListId) || !Truthy(newPosition) {
      return HTTP_BAD_REQUEST, [], [];
    }
    status, srcOrder, tgtRead :=
      MoveTransaction(db, taskId, targetListId.value, newPosition.value, userId, fault, false);
  }

  /** The move with the target read corrected to
      `SELECT id FROM tasks WHERE list_id = $1 AND id != $2 ORDER BY position ASC`,
      so that a same-list move splices the task in once. */
  method MoveTaskFixed(db: Database, taskId: TaskId, targetListId: Option<ListId>, newPosition: Option<int>,
                       userId: UserId, fault: Option<nat>)
    returns (status: int, ghost srcOrder: seq<TaskId>, ghost tgtRead: seq<TaskId>)
    requires db.Valid()
    modifies db`tasks
    ensures db.Valid()
    ensures status == HTTP_OK || status == HTTP_BAD_REQUEST || status == HTTP_SERVER_ERROR
    ensures status != HTTP_OK ==> db.tasks == old(db.tasks)
    ensures status == HTTP_BAD_REQUEST <==> !Truthy(targetListId) || !Truthy(newPosition)
    ensures status == HTTP_OK <==>
              && Truthy(targetListId) && Truthy(newPosition)
              && MoveAuthorized(old(db.tasks), db.lists, db.members, taskId, userId)
              && !FaultWithin(fault, |srcOrder| + |tgtRead| + 2)
    ensures status == HTTP_OK ==>
              && MoveReads(old(db.tasks), taskId, targetListId.value, srcOrder, tgtRead, true)
              && db.tasks == Moved(old(db.tasks), taskId, targetListId.value,
                                   InsertIndex(newPosition.value, |tgtRead|), srcOrder, tgtRead)
  {
    if !Truthy(targetListId) || !Truthy(newPosition) {
      return HTTP_BAD_REQUEST, [], [];
    }
    status, srcOrder, tgtRead :=
      MoveTransaction(db, taskId, targetListId.value, newPosition.value, userId, fault, true);
  }

  /** Where a move leaves each row: at one more than its last index in the
      spliced array if it is there, else at one more than its index in the
      source read if it is there, else where it was. */
  lemma MovedPositions(tasks: map<TaskId, Task>, taskId: TaskId, targetListId: ListId, k: nat,
                       srcOrder: seq<TaskId>, tgtRead: seq<TaskId>)
    requires k <= |tgtRead|
    ensures var after := Moved(tasks, taskId, targetListId, k, srcOrder, tgtRead);
            var sp := Insert(tgtRead, k, taskId);
            forall id :: id in tasks ==>
              after[id].position ==
                if id in sp then LastIndex(sp, id) + 1
                else if id in srcOrder then LastIndex(srcOrder, id) + 1
                else tasks[id].position
  {
    var t1 := WritePositions(tasks, srcOrder);
    WritePositionsAt(tasks, srcOrder);
    if taskId in t1 {
      var t2 := t1[taskId := t1[taskId].(listId := targetListId)];
      WritePositionsAt(t2, Insert(tgtRead, k, taskId));
    } else {
      WritePositionsAt(t1, Insert(tgtRead, k, taskId));
    }
  }

  /** What the two reads of a move contain: the source read holds exactly the
      other tasks of the source list; the target read holds tasks of the
      target list, every one of them other than the moved task, and, when
      corrected, not the moved task. */
  lemma MoveReadsContents(tasks: map<TaskId, Task>, taskId: TaskId, targetListId: ListId,
                          srcOrder: seq<TaskId>, tgtRead: seq<TaskId>, excludeMoved: bool)
    requires taskId in tasks
    requires MoveReads(tasks, taskId, targetListId, srcOrder, tgtRead, excludeMoved)
    ensures NoDup(srcOrder) && NoDup(tgtRead)
    ensures forall i :: 0 <= i < |srcOrder| ==>
              srcOrder[i] in tasks && srcOrder[i] != taskId && tasks[srcOrder[i]].listId == tasks[taskId].listId
    ensures forall id :: id in tasks && id != taskId && tasks[id].listId == tasks[taskId].listId ==> id in srcOrder
    ensures forall i :: 0 <= i < |tgtRead| ==>
              tgtRead[i] in tasks && tasks[tgtRead[i]].listId == targetListId
              && (excludeMoved ==> tgtRead[i] != taskId)
    ensures forall id :: id in tasks && id != taskId && tasks[id].listId == targetListId ==> id in tgtRead
  {
    WritePositionsAt(tasks, srcOrder);
  }

  lemma MoveTargetRanked(tasks: map<TaskId, Task>, taskId: TaskId, targetListId: ListId, k: nat,
                         srcOrder: seq<TaskId>, tgtRead: seq<TaskId>)
    requires taskId in tasks && k <= |tgtRead|
    requires MoveReads(tasks, taskId, targetListId, srcOrder, tgtRead, true)
    ensures var after := Moved(tasks, taskId, targetListId, k, srcOrder, tgtRead);
            Ranked(ListPositions(after, targetListId), Insert(tgtRead, k, taskId))
  {
    var after := Moved(tasks, taskId, targetListId, k, srcOrder, tgtRead);
    var sp := Insert(tgtRead, k, taskId);
    MoveReadsContents(tasks, taskId, targetListId, srcOrder, tgtRead, true);
    MovedPositions(tasks, taskId, targetListId, k, srcOrder, tgtRead);
    InsertNoDup(tgtRead, k, taskId);
    var pos := ListPositions(after, targetListId);
    forall i | 0 <= i < |sp|
      ensures sp[i] in pos && pos[sp[i]] == i + 1
    {
      LastIndexNoDup(sp, i);
      if i != k {
        assert sp[i] in tgtRead;
      }
    }
    forall id
      ensures id in pos <==> id in sp
    {
      if id in sp && id != taskId {
        assert id in tgtRead;
      }
    }
  }

  lemma MoveSourceRanked(tasks: map<TaskId, Task>, taskId: TaskId, targetListId: ListId, k: nat,
                         srcOrder: seq<TaskId>, tgtRead: seq<TaskId>)
    requires taskId in tasks && k <= |tgtRead| && tasks[taskId].listId != targetListId
    requires MoveReads(tasks, taskId, targetListId, srcOrder, tgtRead, true)
    ensures var after := Moved(tasks, taskId, targetListId, k, srcOrder, tgtRead);
            Ranked(ListPositions(after, tasks[taskId].listId), srcOrder)
  {
    var src := tasks[taskId].listId;
    var after := Moved(tasks, taskId, targetListId, k, srcOrder, tgtRead);
    var sp := Insert(tgtRead, k, taskId);
    MoveReadsContents(tasks, taskId, targetListId, srcOrder, tgtRead, true);
    MovedPositions(tasks, taskId, targetListId, k, srcOrder, tgtRead);
    var pos := ListPositions(after, src);
    forall i | 0 <= i < |srcOrder|
      ensures srcOrder[i] in pos && pos[srcOrder[i]] == i + 1
    {
      LastIndexNoDup(srcOrder, i);
    }
    forall id
      ensures id in pos <==> id in srcOrder
    {
    }
  }

  /** On a same-list move the corrected target read is the source read: the
      source rewrite has just ranked those rows 1..n. */
  lemma SameListReadsAgree(tasks: map<TaskId, Task>, taskId: TaskId,
                           srcOrder: seq<TaskId>, tgtRead: seq<TaskId>)
    requires taskId in tasks
    requires MoveReads(tasks, taskId, tasks[taskId].listId, srcOrder, tgtRead, true)
    ensures tgtRead == srcOrder
  {
    var src := tasks[taskId].listId;
    var t1 := WritePositions(tasks, srcOrder);
    WritePositionsAt(tasks, srcOrder);
    MoveReadsContents(tasks, taskId, src, srcOrder, tgtRead, true);
    var rest := ListPositions(t1, src) - {taskId};
    forall i | 0 <= i < |srcOrder|
      ensures srcOrder[i] in rest && rest[srcOrder[i]] == i + 1
    {
      LastIndexNoDup(srcOrder, i);
    }
    forall id
      ensures id in rest <==> id in srcOrder
    {
    }
    RankedReadIsUnique(rest, srcOrder, tgtRead);
  }

  lemma MoveLeavesOtherLists(tasks: map<TaskId, Task>, taskId: TaskId, targetListId: ListId, k: nat,
                             srcOrder: seq<TaskId>, tgtRead: seq<TaskId>, excludeMoved: bool)
    requires taskId in tasks && k <= |tgtRead|
    requires MoveReads(tasks, taskId, targetListId, srcOrder, tgtRead, excludeMoved)
    ensures var after := Moved(tasks, taskId, targetListId, k, srcOrder, tgtRead);
            forall id :: (id in tasks && tasks[id].listId != tasks[taskId].listId && tasks[id].listId != targetListId)
                         ==> after[id] == tasks[id]
  {
    var after := Moved(tasks, taskId, targetListId, k, srcOrder, tgtRead);
    var sp := Insert(tgtRead, k, taskId);
    MoveReadsContents(tasks, taskId, targetListId, srcOrder, tgtRead, excludeMoved);
    MovedPositions(tasks, taskId, targetListId, k, srcOrder, tgtRead);
    forall id | id in tasks && tasks[id].listId != tasks[taskId].listId && tasks[id].listId != targetListId
      ensures after[id] == tasks[id]
    {
      assert id !in srcOrder && id !in sp;
    }
  }

  /** A move whose target read excludes the moved task leaves both lists
      dense (exactly 1..n, no duplicates): the target list is ranked by the spliced order,
      with the moved task at position k + 1; the source list, when it is
      another list, is ranked by its read; on a same-list move both reads
      agree; rows of other lists are untouched. */
  lemma MoveIsDense(tasks: map<TaskId, Task>, taskId: TaskId, targetListId: ListId, k: nat,
                    srcOrder: seq<TaskId>, tgtRead: seq<TaskId>)
    requires taskId in tasks && k <= |tgtRead|
    requires MoveReads(tasks, taskId, targetListId, srcOrder, tgtRead, true)
    ensures var after := Moved(tasks, taskId, targetListId, k, srcOrder, tgtRead);
            var src := tasks[taskId].listId;
            && Ranked(ListPositions(after, targetListId), Insert(tgtRead, k, taskId))
            && after[taskId].position == k + 1
            && (src != targetListId ==> Ranked(ListPositions(after, src), srcOrder))
            && (src == targetListId ==> tgtRead == srcOrder)
            && (forall id :: id in tasks && tasks[id].listId != src && tasks[id].listId != targetListId
                  ==> after[id] == tasks[id])
  {
    MoveTargetRanked(tasks, taskId, targetListId, k, srcOrder, tgtRead);
    var sp := Insert(tgtRead, k, taskId);
    var after := Moved(tasks, taskId, targetListId, k, srcOrder, tgtRead);
    assert sp[k] == taskId;
    assert after[taskId].position == k + 1;
    if tasks[taskId].listId != targetListId {
      MoveSourceRanked(tasks, taskId, targetListId, k, srcOrder, tgtRead);
    } else {
      SameListReadsAgree(tasks, taskId, srcOrder, tgtRead);
    }
    MoveLeavesOtherLists(tasks, taskId, targetListId, k, srcOrder, tgtRead, true);
  }

  /** As written, a move to ANOTHER list is still correct: the target read
      cannot contain the moved task, which still sits in the source list. */
  lemma CrossListMoveIsDense(tasks: map<TaskId, Task>, taskId: TaskId, targetListId: ListId, k: nat,
                             srcOrder: seq<TaskId>, tgtRead: seq<TaskId>)
    requires taskId in tasks && k <= |tgtRead| && tasks[taskId].listId != targetListId
    requires MoveReads(tasks, taskId, targetListId, srcOrder, tgtRead, false)
    ensures var after := Moved(tasks, taskId, targetListId, k, srcOrder, tgtRead);
            var src := tasks[taskId].listId;
            && Ranked(ListPositions(after, targetListId), Insert(tgtRead, k, taskId))
            && after[taskId].position == k + 1
            && Ranked(ListPositions(after, src), srcOrder)
            && (forall id :: id in tasks && tasks[id].listId != src && tasks[id].listId != targetListId
                  ==> after[id] == tasks[id])
  {
    var t1 := WritePositions(tasks, srcOrder);
    WritePositionsAt(tasks, srcOrder);
    var target := ListPositions(t1, targetListId);
    assert taskId !in target;
    assert target - {taskId} == target;
    MoveIsDense(tasks, taskId, targetListId, k, srcOrder, tgtRead);
  }

  /** Rewriting the positions of a list that is already dense, in its own
      order, writes back exactly the positions it has: the reindex is
      idempotent. */
  lemma RewriteOfRankedIsIdentity(tasks: map<TaskId, Task>, l: ListId, order: seq<TaskId>)
    requires Ranked(ListPositions(tasks, l), order)
    ensures WritePositions(tasks, order) == tasks
  {
    var after := WritePositions(tasks, order);
    WritePositionsAt(tasks, order);
    forall id | id in tasks
      ensures after[id] == tasks[id]
    {
      if id in order {
        var i :| 0 <= i < |order| && order[i] == id;
        LastIndexNoDup(order, i);
      }
    }
  }

  /** The clamp decides where a dense move lands the task: a requested
      position beyond the end puts it last, one below 1 puts it first, and
      one in range puts it exactly there. */
  lemma MoveLandsAtClampedPosition(tasks: map<TaskId, Task>, taskId: TaskId, targetListId: ListId,
                                   newPosition: int, srcOrder: seq<TaskId>, tgtRead: seq<TaskId>)
    requires taskId in tasks
    requires MoveReads(tasks, taskId, targetListId, srcOrder, tgtRead, true)
    ensures var after := Moved(tasks, taskId, targetListId, InsertIndex(newPosition, |tgtRead|), srcOrder, tgtRead);
            var p := after[taskId].position;
            && (newPosition > |tgtRead| + 1 ==>
                  p == |tgtRead| + 1 && forall id :: id in tgtRead ==> id in after && after[id].position < p)
            && (newPosition < 1 ==> p == 1 && forall id :: id in tgtRead ==> id in after && after[id].position > p)
            && (1 <= newPosition <= |tgtRead| + 1 ==> p == newPosition)
  {
    var k := InsertIndex(newPosition, |tgtRead|);
    var after := Moved(tasks, taskId, targetListId, k, srcOrder, tgtRead);
    MoveIsDense(tasks, taskId, targetListId, k, srcOrder, tgtRead);
    var sp := Insert(tgtRead, k, taskId);
    var pos := ListPositions(after, targetListId);
    forall id | id in tgtRead
      ensures id in pos && after[id].position == pos[id]
      ensures k == |tgtRead| ==> pos[id] <= |tgtRead|
      ensures k == 0 ==> pos[id] >= 2
    {
      var j :| 0 <= j < |tgtRead| && tgtRead[j] == id;
      if j < k {
        assert sp[j] == id;
      } else {
        assert sp[j + 1] == id;
      }
    }
  }

  /** Three tasks 1, 2, 3 at positions 1, 2, 3 of list 10. */
  function ThreeTasks(): (tasks: map<TaskId, Task>)
    ensures forall id :: id in tasks <==> 1 <= id <= 3
    ensures forall id :: id in tasks ==> tasks[id].listId == 10 && tasks[id].position == id
  {
    map id | 1 <= id <= 3 :: Task(10, "", None, None, id, 1)
  }

  /** The source read of moving task 3 within list 10 of `ThreeTasks` is
      forced to [1, 2]. */
  lemma ThreeTasksSourceRead(srcOrder: seq<TaskId>)
    requires OrderedRead(ListPositions(ThreeTasks(), 10) - {3}, srcOrder)
    ensures srcOrder == [1, 2]
  {
    var rest := ListPositions(ThreeTasks(), 10) - {3};
    forall id
      ensures id in rest <==> id in [1, 2]
    {
    }
    assert Ranked(rest, [1, 2]);
    RankedReadIsUnique(rest, [1, 2], srcOrder);
  }

  /** Rewriting tasks 1 and 2 to positions 1 and 2 leaves `ThreeTasks` as it was. */
  lemma ThreeTasksRewritten()
    ensures WritePositions(ThreeTasks(), [1, 2]) == ThreeTasks()
  {
    var tasks := ThreeTasks();
    WritePositionsAt(tasks, [1, 2]);
    var t1 := WritePositions(tasks, [1, 2]);
    forall id | id in tasks
      ensures t1[id] == tasks[id]
    {
      if id in [1, 2] {
        assert LastIndex([1, 2], id) == id - 1;
      }
    }
  }

  /** The target read of the same move is forced too: [1, 2] when it
      excludes task 3, [1, 2, 3] when it does not. */
  lemma ThreeTasksReads(srcOrder: seq<TaskId>, tgtRead: seq<TaskId>, excludeMoved: bool)
    requires MoveReads(ThreeTasks(), 3, 10, srcOrder, tgtRead, excludeMoved)
    ensures srcOrder == [1, 2]
    ensures tgtRead == if excludeMoved then [1, 2] else [1, 2, 3]
  {
    ThreeTasksSourceRead(srcOrder);
    ThreeTasksRewritten();
    var target := ListPositions(ThreeTasks(), 10);
    if excludeMoved {
      forall id
        ensures id in target - {3} <==> id in [1, 2]
      {
      }
      assert Ranked(target - {3}, [1, 2]);
      RankedReadIsUnique(target - {3}, [1, 2], tgtRead);
    } else {
      forall id
        ensures id in target <==> id in [1, 2, 3]
      {
      }
      assert Ranked(target, [1, 2, 3]);
      RankedReadIsUnique(target, [1, 2, 3], tgtRead);
    }
  }

  /** As written, moving task 3 to position 1 of its own list is lost: the
      target read returns [1, 2, 3], the splice gives [3, 1, 2, 3], and the
      second write of task 3 overrides the first. The request succeeds, the
      order stays 1, 2, 3, and the list now holds positions 2, 3, 4. */
  lemma SameListMoveToFrontIsLost(srcOrder: seq<TaskId>, tgtRead: seq<TaskId>)
    requires MoveReads(ThreeTasks(), 3, 10, srcOrder, tgtRead, false)
    ensures var after := Moved(ThreeTasks(), 3, 10, InsertIndex(1, |tgtRead|), srcOrder, tgtRead);
            after[1].position == 2 && after[2].position == 3 && after[3].position == 4
  {
    ThreeTasksReads(srcOrder, tgtRead, false);
    FrontMoveOfThree(ThreeTasks(), srcOrder, tgtRead);
  }

  /** With the corrected read the same request puts task 3 first and keeps
      positions 1, 2, 3. */
  lemma SameListMoveToFrontFixed(srcOrder: seq<TaskId>, tgtRead: seq<TaskId>)
    requires MoveReads(ThreeTasks(), 3, 10, srcOrder, tgtRead, true)
    ensures var after := Moved(ThreeTasks(), 3, 10, InsertIndex(1, |tgtRead|), srcOrder, tgtRead);
            after[3].position == 1 && after[1].position == 2 && after[2].position == 3
  {
    ThreeTasksReads(srcOrder, tgtRead, true);
    FrontMoveOfThree(ThreeTasks(), srcOrder, tgtRead);
  }

  /** The positions a move of task 3 to index 0 of list 10 writes, for the
      two target reads of `ThreeTasksReads`. */
  lemma FrontMoveOfThree(tasks: map<TaskId, Task>, srcOrder: seq<TaskId>, tgtRead: seq<TaskId>)
    requires 1 in tasks && 2 in tasks && 3 in tasks
    requires srcOrder == [1, 2] && (tgtRead == [1, 2] || tgtRead == [1, 2, 3])
    ensures var after := Moved(tasks, 3, 10, 0, srcOrder, tgtRead);
            && (tgtRead == [1, 2, 3] ==>
                  after[1].position == 2 && after[2].position == 3 && after[3].position == 4)
            && (tgtRead == [1, 2] ==>
                  after[3].position == 1 && after[1].position == 2 && after[2].position == 3)
  {
    MovedPositions(tasks, 3, 10, 0, srcOrder, tgtRead);
    var sp := Insert(tgtRead, 0, 3);
    assert sp[0] == 3 && sp[1] == 1 && sp[2] == 2;
    if |tgtRead| == 3 {
      assert |sp| == 4 && sp[3] == 3;
      assert LastIndex(sp, 3) == 3 && LastIndex(sp, 1) == 1 && LastIndex(sp, 2) == 2;
    } else {
      assert |sp| == 3;
      assert LastIndex(sp, 3) == 0 && LastIndex(sp, 1) == 1 && LastIndex(sp, 2) == 2;
    }
  }

  // ---------------------------------------------------------------------
  // the other task handlers

  /** The status of the guards shared by the handlers that look a task up:
      404 without the task, 500 when its list row is missing (`rows[0]` of an
      empty result is undefined and reading `board_id` of it throws), 403
      for a caller who is not a member of the board, 200 otherwise. */
  function TaskGate(tasks: map<TaskId, Task>, lists: map<ListId, ListRow>, members: seq<Member>,
                    taskId: TaskId, userId: UserId): (status: int)
    ensures status == HTTP_OK <==> MoveAuthorized(tasks, lists, members, taskId, userId)
    ensures status == HTTP_NOT_FOUND <==> taskId !in tasks
  {
    if taskId !in tasks then HTTP_NOT_FOUND
    else if tasks[taskId].listId !in lists then HTTP_SERVER_ERROR
    else if !IsMember(members, lists[tasks[taskId].listId].boardId, userId) then HTTP_FORBIDDEN
    else HTTP_OK
  }

  /** `POST /tasks`: appends a task to a list, at one past the greatest
      position of that list (1 for an empty list). */
  method CreateTask(db: Database, listId: Option<ListId>, title: Option<string>,
                    description: Option<string>, dueDate: Option<string>, userId: UserId)
    returns (status: int, created: Option<TaskId>)
    requires db.Valid()
    modifies db`tasks, db`nextTaskId
    ensures db.Valid()
    ensures status ==
              if !Truthy(listId) || !TruthyText(title) then HTTP_BAD_REQUEST
              else if listId.value !in db.lists then HTTP_NOT_FOUND
              else if !IsMember(db.members, db.lists[listId.value].boardId, userId) then HTTP_FORBIDDEN
              else HTTP_CREATED
    ensures status != HTTP_CREATED ==>
              created.None? && db.tasks == old(db.tasks) && db.nextTaskId == old(db.nextTaskId)
    ensures status == HTTP_CREATED ==>
              && created == Some(old(db.nextTaskId))
              && created.value !in old(db.tasks)
              && db.tasks == old(db.tasks)[created.value :=
                   Task(listId.value, title.value, OrNull(description), OrNull(dueDate),
                        NextPosition(ListPositions(old(db.tasks), listId.value)), userId)]
  {
    created := None;
    if !Truthy(listId) || !TruthyText(title) {
      return HTTP_BAD_REQUEST, created;
    }
    if listId.value !in db.lists {
      return HTTP_NOT_FOUND, created;
    }
    var boardId := db.lists[listId.value].boardId;
    if !IsMember(db.members, boardId, userId) {
      return HTTP_FORBIDDEN, created;
    }
    var newPosition := NextPosition(ListPositions(db.tasks, listId.value));
    var id := db.nextTaskId;
    db.tasks := db.tasks[id := Task(listId.value, title.value, OrNull(description), OrNull(dueDate),
                                    newPosition, userId)];
    db.nextTaskId := id + 1;
    status, created := HTTP_CREATED, Some(id);
  }

  /** A created task sorts after every task of its list; on a dense list it
      takes position n + 1 and the list stays dense; other lists keep their
      positions. */
  lemma CreateKeepsRanked(tasks: map<TaskId, Task>, l: ListId, order: seq<TaskId>, newId: TaskId, row: Task)
    requires Ranked(ListPositions(tasks, l), order) && newId !in tasks
    requires row.listId == l && row.position == NextPosition(ListPositions(tasks, l))
    ensures Ranked(ListPositions(tasks[newId := row], l), order + [newId])
    ensures row.position == |order| + 1
    ensures forall l' :: l' != l ==> ListPositions(tasks[newId := row], l') == ListPositions(tasks, l')
  {
    var pos := ListPositions(tasks, l);
    AppendKeepsRanked(pos, order, newId);
    assert ListPositions(tasks[newId := row], l) == pos[newId := NextPosition(pos)];
  }

  /** `GET /tasks/list/:listId`: the tasks of a list in position order. */
  method GetTasksByList(db: Database, listId: ListId, userId: UserId) returns (status: int, ids: seq<TaskId>)
    ensures status ==
              if listId !in db.lists then HTTP_NOT_FOUND
              else if !IsMember(db.members, db.lists[listId].boardId, userId) then HTTP_FORBIDDEN
              else HTTP_OK
    ensures status == HTTP_OK ==> OrderedRead(ListPositions(db.tasks, listId), ids)
    ensures status != HTTP_OK ==> ids == []
  {
    ids := [];
    if listId !in db.lists {
      return HTTP_NOT_FOUND, ids;
    }
    if !IsMember(db.members, db.lists[listId].boardId, userId) {
      return HTTP_FORBIDDEN, ids;
    }
    ids := SelectOrdered(ListPositions(db.tasks, listId));
    status := HTTP_OK;
  }

  /** The row `UPDATE tasks SET title = COALESCE($1, title), ...` leaves,
      each argument passed through `x || null`: an absent or empty field
      keeps the stored value, so a field cannot be cleared. */
  function Coalesced(row: Task, title: Option<string>, description: Option<string>,
                     dueDate: Option<string>): (r: Task)
    ensures r.listId == row.listId && r.position == row.position && r.createdBy == row.createdBy
  {
    row.(title := if TruthyText(title) then title.value else row.title,
         description := if TruthyText(description) then description else row.description,
         dueDate := if TruthyText(dueDate) then dueDate else row.dueDate)
  }

  /** Repeating an update changes nothing more. */
  lemma CoalescedIdempotent(row: Task, title: Option<string>, description: Option<string>, dueDate: Option<string>)
    ensures Coalesced(Coalesced(row, title, description, dueDate), title, description, dueDate)
            == Coalesced(row, title, description, dueDate)
  {
  }

  /** An update whose fields are all absent or empty leaves the row as it was. */
  lemma CoalescedBlankKeepsRow(row: Task, title: Option<string>, description: Option<string>, dueDate: Option<string>)
    requires !TruthyText(title) && !TruthyText(description) && !TruthyText(dueDate)
    ensures Coalesced(row, title, description, dueDate) == row
  {
  }

  /** An update moves no task: every list keeps its positions. */
  lemma UpdateKeepsPositions(tasks: map<TaskId, Task>, taskId: TaskId, title: Option<string>,
                             description: Option<string>, dueDate: Option<string>)
    requires taskId in tasks
    ensures forall l :: ListPositions(tasks[taskId := Coalesced(tasks[taskId], title, description, dueDate)], l)
                        == ListPositions(tasks, l)
  {
    var updated := tasks[taskId := Coalesced(tasks[taskId], title, description, dueDate)];
    forall l
      ensures ListPositions(updated, l) == ListPositions(tasks, l)
    {
    }
  }

  /** `PUT /tasks/:taskId`. */
  method UpdateTask(db: Database, taskId: TaskId, title: Option<string>, description: Option<string>,
                    dueDate: Option<string>, userId: UserId) returns (status: int)
    requires db.Valid()
    modifies db`tasks
    ensures db.Valid()
    ensures status == TaskGate(old(db.tasks), db.lists, db.members, taskId, userId)
    ensures status != HTTP_OK ==> db.tasks == old(db.tasks)
    ensures status == HTTP_OK ==>
              db.tasks == old(db.tasks)[taskId := Coalesced(old(db.tasks)[taskId], title, description, dueDate)]
  {
    status := TaskGate(db.tasks, db.lists, db.members, taskId, userId);
    if status == HTTP_OK {
      db.tasks := db.tasks[taskId := Coalesced(db.tasks[taskId], title, description, dueDate)];
    }
  }

  /** `DELETE /tasks/:taskId`: removes the row and renumbers nothing. */
  method DeleteTask(db: Database, taskId: TaskId, userId: UserId) returns (status: int)
    requires db.Valid()
    modifies db`tasks
    ensures db.Valid()
    ensures status == TaskGate(old(db.tasks), db.lists, db.members, taskId, userId)
    ensures status != HTTP_OK ==> db.tasks == old(db.tasks)
    ensures status == HTTP_OK ==> db.tasks == old(db.tasks) - {taskId}
  {
    status := TaskGate(db.tasks, db.lists, db.members, taskId, userId);
    if status == HTTP_OK {
      db.tasks := db.tasks - {taskId};
    }
  }

  /** Deleting a task keeps the order of the rest of its list, but leaves a
      gap: unless it was the last task, the list is no longer dense. */
  lemma DeleteLeavesGap(tasks: map<TaskId, Task>, l: ListId, order: seq<TaskId>, i: nat)
    requires Ranked(ListPositions(tasks, l), order) && i < |order|
    ensures OrderedRead(ListPositions(tasks - {order[i]}, l), order[..i] + order[i + 1..])
    ensures i + 1 < |order| ==> !Ranked(ListPositions(tasks - {order[i]}, l), order[..i] + order[i + 1..])
  {
    assert ListPositions(tasks - {order[i]}, l) == ListPositions(tasks, l) - {order[i]};
    RankedWithout(ListPositions(tasks, l), order, i);
  }

  /** `POST /tasks/:taskId/assign`: records an assignment of a member of the
      task's board; assigning twice leaves one row (`ON CONFLICT DO NOTHING`). */
  method AssignUserToTask(db: Database, taskId: TaskId, assignee: Option<UserId>, currentUserId: UserId)
    returns (status: int)
    requires db.Valid()
    modifies db`assignments
    ensures db.Valid()
    ensures status ==
              if !Truthy(assignee) then HTTP_BAD_REQUEST
              else if TaskGate(db.tasks, db.lists, db.members, taskId, currentUserId) != HTTP_OK
                then TaskGate(db.tasks, db.lists, db.members, taskId, currentUserId)
              else if !IsMember(db.members, db.lists[db.tasks[taskId].listId].boardId, assignee.value)
                then HTTP_BAD_REQUEST
              else HTTP_CREATED
    ensures status != HTTP_CREATED ==> db.assignments == old(db.assignments)
    ensures status == HTTP_CREATED ==> db.assignments == old(db.assignments) + {(taskId, assignee.value)}
  {
    if !Truthy(assignee) {
      return HTTP_BAD_REQUEST;
    }
    status := TaskGate(db.tasks, db.lists, db.members, taskId, currentUserId);
    if status != HTTP_OK {
      return status;
    }
    var boardId := db.lists[db.tasks[taskId].listId].boardId;
    if !IsMember(db.members, boardId, assignee.value) {
      return HTTP_BAD_REQUEST;
    }
    db.assignments := db.assignments + {(taskId, assignee.value)};
    status := HTTP_CREATED;
  }

  /** `DELETE /tasks/:taskId/assign/:userId`: removes the assignment if there
      is one; the assignee is not checked. */
  method RemoveUserFromTask(db: Database, taskId: TaskId, userId: UserId, currentUserId: UserId)
    returns (status: int)
    requires db.Valid()
    modifies db`assignments
    ensures db.Valid()
    ensures status == TaskGate(db.tasks, db.lists, db.members, taskId, currentUserId)
    ensures status != HTTP_OK ==> db.assignments == old(db.assignments)
    ensures status == HTTP_OK ==> db.assignments == old(db.assignments) - {(taskId, userId)}
  {
    status := TaskGate(db.tasks, db.lists, db.members, taskId, currentUserId);
    if status == HTTP_OK {
      db.assignments := db.assignments - {(taskId, userId)};
    }
  }

  /** Assigning and then removing the same user leaves no assignment of that
      user to that task, and every other assignment as it was. */
  lemma AssignThenRemove(assignments: set<(TaskId, UserId)>, taskId: TaskId, userId: UserId)
    ensures (assignments + {(taskId, userId)}) - {(taskId, userId)} == assignments - {(taskId, userId)}
    ensures (taskId, userId) in assignments + {(taskId, userId)}
  {
  }

  /** `GET /tasks/:taskId/assignees`: the registered users assigned to the
      task (the join with `users`). */
  method GetTaskAssignees(db: Database, taskId: TaskId, userId: UserId)
    returns (status: int, assignees: set<UserId>)
    ensures status == TaskGate(db.tasks, db.lists, db.members, taskId, userId)
    ensures status == HTTP_OK ==>
              forall u :: u in assignees <==> (taskId, u) in db.assignments && u in db.users
    ensures status != HTTP_OK ==> assignees == {}
  {
    assignees := {};
    status := TaskGate(db.tasks, db.lists, db.members, taskId, userId);
    if status == HTTP_OK {
      assignees := set p | p in db.assignments && p.0 == taskId && p.1 in db.users :: p.1;
    }
  }
}
