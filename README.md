# TaskFlow ordering and membership core, in Dafny

TaskFlow is a Trello-like board application. A board holds lists, and a
list holds tasks. Lists are ordered on their board and tasks on their list
by an integer `position` column. Board membership (`board_members`, with a
role `admin` or `member`) decides who may read or change what.

This project models four parts of the system:

- **The task handlers** (`TaskController`). They cover creating, reading,
  updating and deleting tasks, and assigning users to tasks. The main one is
  `moveTask`, which rewrites positions inside one transaction:
  1. It reindexes the source list without the moved task.
  2. It reads the target list.
  3. It clamps the requested index and splices the task in.
  4. It sets the task's list and rewrites the target's positions 1..n.
- **The board handlers** (`BoardController`):
  - creating a board makes its creator an admin;
  - only admins add or remove members, and duplicates are refused;
  - the last admin cannot be removed;
  - the activity feed holds the newest 50 entries.
- **The list handlers** (`ListController`). They cover appending a list
  after the board's greatest position, reading in position order, renaming
  and deleting.
- **The board page** (`BoardPage`). This is the client's `tasksMap` from
  list id to cards. It covers the socket event reducers, the drag start
  lookup, and the optimistic reorder and request of a drop. It also covers
  the refetch loop and the page's own list requests.

## How the model is built

- **The database.** `Store.Database` is a class whose fields are the
  tables: maps keyed by id, and the membership rows as a sequence in
  insertion order. Each handler is a method that changes only the fields it
  names in `modifies`.
- **Transactions.** A handler runs as one atomic step. `moveTask` and
  `createBoard` work on a local copy and assign it at COMMIT, so a
  ROLLBACK leaves the tables as they were.
- **Store failures.** For the two multi-statement transactions,
  `moveTask` and `createBoard`, a failing statement is a parameter,
  `fault`: the index of the write statement that the store rejects. The
  other handlers' store failures are under "Left out".
- **Ordered reads.** `SELECT ... ORDER BY position` is the
  nondeterministic method `Positions.SelectOrdered`. It is specified
  by `OrderedRead`: every row once, positions non-decreasing, and ties in
  either order.
- **Dense positions.** `Ranked(pos, order)` says the positions are
  exactly 1..n in `order` ("dense").
- **Errors.** A handler that reaches `next(error)` answers 500.
  `src/index.js` installs no error middleware, so Express's default handler
  answers. A thrown error counts the same way.
- **JavaScript truthiness.** `!x` is false exactly for a present, non-zero
  number (`Common.Truthy`) or a present, non-empty string
  (`Common.TruthyText`).
- **Requests and answers.** Request fields are `Option` values, and the
  status code is a result.

## Behaviour worth noting

What the code does in these cases, as the model states it:

- A caller who is not a member of the task's board, or a task that does
  not exist, makes `moveTask` throw inside its transaction. It therefore
  answers 500 after ROLLBACK; it never answers 403 or 404.
- A `newPosition` of 0 answers 400, because `!0` is true; only a
  non-zero position below 1 is clamped to the front.
- Moving a task within its own list does not reorder the list (see
  Findings).
- `listController.js` calls `logActivity` without importing it, and
  `deleteList` also names an undefined `boardId`. `createList` and
  `deleteList` therefore throw after their write. The new or removed row
  stays, and the request answers 500. On the page, the `createList` request
  rejects, so the page never adds the list it just created.

## Model

| member | source | states |
|---|---|---|
| Positions.InsertIndex | taskflow-backend/src/controllers/taskController.js:370 | the insertion index lies in [0, len]; below 1 goes to the front, beyond len+1 to the back, otherwise newPosition-1 |
| Positions.Insert | taskflow-backend/src/controllers/taskController.js:371 | the splice has one more element, holds x at k, keeps the prefix and shifts the suffix, and adds exactly x to the multiset |
| Positions.SelectOrdered | taskflow-backend/src/controllers/taskController.js:348-352 | an ORDER BY position read returns every row of the list exactly once, in non-decreasing position |
| Positions.RankedIsDense | taskflow-backend/src/controllers/taskController.js:354-359 | a ranked list has exactly as many rows as its order, positions in 1..n and no two rows at the same position |
| Positions.RankedReadIsUnique | taskflow-backend/src/controllers/taskController.js:362-365 | over dense positions the ordered read is forced to be the ranked order |
| Positions.NextPosition | taskflow-backend/src/controllers/taskController.js:47-52 | COALESCE(MAX(position), 0) + 1: 1 for an empty list, else strictly above every position |
| Positions.AppendKeepsRanked | taskflow-backend/src/controllers/taskController.js:47-70 | appending at NextPosition to a dense list keeps it dense with the new row last |
| Positions.GreatestComesLast | taskflow-backend/src/controllers/listController.js:76-90 | a row whose position is strictly greatest comes last in every ordered read |
| Positions.RankedWithout | taskflow-backend/src/controllers/taskController.js:268-272 | removing one row keeps the others ordered, and leaves the list not dense unless it was the last |
| Store.RoleOf | taskflow-backend/src/controllers/boardController.js:135-156 | a role exactly when some (board, user) row exists |
| Store.RoleOfIsFirstRow | taskflow-backend/src/controllers/boardController.js:135-156 | the role is that of the first (board, user) row, the `rows[0]` of the query |
| Store.MembersOfAppend | taskflow-backend/src/controllers/boardController.js:336-348 | a row appended later is listed after the earlier rows: the view is in joining order |
| Store.MembersOfBoard | taskflow-backend/src/controllers/boardController.js:336-348 | the view holds exactly the board's rows whose user is registered (the join with users) |
| Store.MembersOfUnique | taskflow-backend/src/controllers/boardController.js:336-348 | with no duplicate (board, user) pair in the table, no user appears twice in the view |
| Store.MembersOfAgrees | taskflow-backend/src/controllers/boardController.js:336-348 | the view gives a registered user the table's role on the board, and an unregistered one none |
| Store.WritePositionsAt | taskflow-backend/src/controllers/taskController.js:354-359 | the rewrite loop leaves every id of the order at one more than its last index, all other rows as they were, same keys |
| TaskController.RewritePositions | taskflow-backend/src/controllers/taskController.js:354-359 | the row-by-row rewrite loop fails exactly when the failing statement is among its writes, and otherwise leaves WritePositions of the order |
| TaskController.Moved | taskflow-backend/src/controllers/taskController.js:347-385 | the committed state of a move: same ids, the moved task in the target list, only list_id and position change |
| TaskController.MoveTask | taskflow-backend/src/controllers/taskController.js:300-414 | 400 exactly for a missing target or a falsy newPosition (0 included); 200 exactly when the task exists, its list exists, the caller is a board member and no write fails; on 200 the tables become Moved of the two reads; otherwise nothing changes (ROLLBACK) |
| TaskController.MoveTaskFixed | taskflow-backend/src/controllers/taskController.js:300-414 | the same contract with the target read excluding the moved task |
| TaskController.MovedPositions | taskflow-backend/src/controllers/taskController.js:347-385 | where a move leaves each row: spliced ids at their last index + 1, source ids at their index + 1, others unchanged |
| TaskController.MoveSourceRanked | taskflow-backend/src/controllers/taskController.js:347-359 | after a cross-list move the rest of the source list keeps its relative order and holds exactly positions 1..k |
| TaskController.MoveTargetRanked | taskflow-backend/src/controllers/taskController.js:361-385 | with the moved task excluded from the read, the target holds the spliced order at exactly 1..n+1 |
| TaskController.MoveLeavesOtherLists | taskflow-backend/src/controllers/taskController.js:373-385 | rows of lists other than source and target are unchanged |
| TaskController.MoveIsDense | taskflow-backend/src/controllers/taskController.js:347-385 | with the corrected read, both lists end dense, the task sits at k+1 in the target, other lists are untouched |
| TaskController.CrossListMoveIsDense | taskflow-backend/src/controllers/taskController.js:347-385 | as written, a move to another list leaves the target at Insert(read, k, task) ranked 1..n+1, the source ranked 1..k, the moved task at k+1 and other lists untouched |
| TaskController.MoveIntoTarget | taskflow-backend/src/controllers/taskController.js:361-385 | the target half of the move: reads the target list in position order (with or without the moved task), fails exactly when the failing statement is its list_id update or one of its position writes, and otherwise leaves the task in the target list with the spliced order written over the rows |
| TaskController.MoveLandsAtClampedPosition | taskflow-backend/src/controllers/taskController.js:370-385 | a request beyond the end lands the task last (after every other target task), one below 1 lands it first, one in range lands it at exactly that position |
| TaskController.RewriteOfRankedIsIdentity | taskflow-backend/src/controllers/taskController.js:354-359 | reindexing a dense list in its own order changes no row |
| TaskController.SameListMoveToFrontIsLost | taskflow-backend/src/controllers/taskController.js:361-385 | as written, moving task 3 of [1,2,3] to position 1 leaves positions 1→2, 2→3, 3→4: the order is unchanged and the list is no longer dense |
| TaskController.SameListMoveToFrontFixed | taskflow-backend/src/controllers/taskController.js:361-385 | with the corrected read the same request gives 3→1, 1→2, 2→3 |
| TaskController.TaskGate | taskflow-backend/src/controllers/taskController.js:157-190 | 404 exactly without the task, 200 exactly when its list exists and the caller is a member of that list's board |
| TaskController.CreateTask | taskflow-backend/src/controllers/taskController.js:6-91 | 400 for a falsy listId or title, 404 for an unknown list, 403 for a non-member; on 201 exactly one fresh row is added at NextPosition of its list, and otherwise nothing changes |
| TaskController.CreateKeepsRanked | taskflow-backend/src/controllers/taskController.js:47-70 | a created task takes position n+1 of a dense list, the list stays dense with it last, other lists keep their positions |
| TaskController.GetTasksByList | taskflow-backend/src/controllers/taskController.js:95-147 | 404 for an unknown list, 403 for a non-member, otherwise the list's tasks as an ordered read |
| TaskController.Coalesced | taskflow-backend/src/controllers/taskController.js:193-209 | COALESCE keeps list, position and creator |
| TaskController.CoalescedBlankKeepsRow | taskflow-backend/src/controllers/taskController.js:193-209 | an update with every field absent or empty leaves the row as it was (a field cannot be cleared) |
| TaskController.UpdateKeepsPositions | taskflow-backend/src/controllers/taskController.js:193-209 | an update changes no list's positions |
| TaskController.UpdateTask | taskflow-backend/src/controllers/taskController.js:150-219 | the TaskGate status; on 200 only the task's row changes, to its COALESCE update |
| TaskController.DeleteTask | taskflow-backend/src/controllers/taskController.js:223-296 | the TaskGate status; on 200 exactly that row is removed and nothing is renumbered |
| TaskController.DeleteLeavesGap | taskflow-backend/src/controllers/taskController.js:268-272 | after a delete the rest of the list keeps its order but is not dense unless the last task was deleted |
| TaskController.AssignUserToTask | taskflow-backend/src/controllers/taskController.js:417-509 | 400 for a falsy assignee, the gate's status, 400 for an assignee who is not a board member, otherwise 201 and the pair is in the set (an existing pair changes nothing) |
| TaskController.RemoveUserFromTask | taskflow-backend/src/controllers/taskController.js:513-568 | the gate's status; on 200 exactly that pair is removed |
| TaskController.GetTaskAssignees | taskflow-backend/src/controllers/taskController.js:572-632 | on 200 exactly the registered users assigned to the task |
| BoardController.CreateBoard | taskflow-backend/src/controllers/boardController.js:6-48 | 400 for a missing title; the board and the creator's admin row are inserted together or, on a failing insert, neither; the creator's role is admin |
| BoardController.AddBoardMember | taskflow-backend/src/controllers/boardController.js:122-217 | 400 for a missing user, 403 for a non-member or non-admin caller, 404 for an unregistered user, 400 for an existing member; on 201 one row with the given role or `member`; memberships stay unique |
| BoardController.RemoveBoardMember | taskflow-backend/src/controllers/boardController.js:220-311 | 403 unless the caller is an admin, 404 for a non-member target, 400 for removing an admin of a board with at most one admin; on 200 the target is no member and the board keeps at least one admin |
| BoardController.GetSingleBoard | taskflow-backend/src/controllers/boardController.js:76-118 | 403 for a non-member, 404 for a missing board, otherwise the board |
| BoardController.GetBoardMembers | taskflow-backend/src/controllers/boardController.js:314-360 | 403 for a non-member; otherwise the joined view in joining order: exactly the board's rows whose user is registered, each user once, each with the table's role |
| BoardController.Feed | taskflow-backend/src/controllers/boardController.js:383-393 | at most 50 activities, all of the board, and as many as the board has up to 50 |
| BoardController.FeedIsNewestFirst | taskflow-backend/src/controllers/boardController.js:383-393 | over a table in created_at order, the feed is in descending created_at order, and no activity of the board that it omits is newer than any it holds |
| BoardController.GetBoardActivity | taskflow-backend/src/controllers/boardController.js:365-403 | 403 for a non-member; otherwise the feed, newest first, with no omitted activity of the board newer than one it holds (the table is in created_at order by Valid) |
| ListController.CreateList | taskflow-backend/src/controllers/listController.js:3-62 | 400 for a falsy boardId or title and 403 for a non-member, both without a write; otherwise a fresh row at NextPosition of the board is inserted and the answer is 500 |
| ListController.CreatedListComesLast | taskflow-backend/src/controllers/listController.js:28-39 | a created list comes last in every ordered read of its board, after the board's earlier lists in their order |
| ListController.GetListsByBoard | taskflow-backend/src/controllers/listController.js:65-101 | 403 for a non-member, otherwise the board's lists as an ordered read |
| ListController.UpdateList | taskflow-backend/src/controllers/listController.js:103-158 | 400 for a missing title, 404 for an unknown list, 403 for a non-member; on 200 only the title changes |
| ListController.RenameKeepsOrder | taskflow-backend/src/controllers/listController.js:143-147 | renaming changes no board's positions |
| ListController.DeleteList | taskflow-backend/src/controllers/listController.js:161-223 | 404 for an unknown list, 403 for a non-member; otherwise exactly that row is removed and the answer is 500 |
| ListController.DeleteListKeepsOrder | taskflow-backend/src/controllers/listController.js:197-200 | the remaining lists of the board keep their order; other boards are untouched |
| BoardPage.IndexOf | taskflow-frontend/src/pages/BoardPage.jsx:187-193 | findIndex: -1 exactly when no card carries the id, else the first index that does |
| BoardPage.Without | taskflow-frontend/src/pages/BoardPage.jsx:97 | the filter keeps exactly the cards with another id |
| BoardPage.WithoutAppend | taskflow-frontend/src/pages/BoardPage.jsx:97 | the filter works card by card and keeps their order: filtering a concatenation concatenates the filtered parts |
| BoardPage.WithoutCount | taskflow-frontend/src/pages/BoardPage.jsx:97 | the filter removes exactly the occurrences of the id and none remains |
| BoardPage.WithoutIdempotent | taskflow-frontend/src/pages/BoardPage.jsx:97 | filtering twice equals filtering once |
| BoardPage.OnTaskCreated | taskflow-frontend/src/pages/BoardPage.jsx:87-92 | the card is appended to its list, the entry created if absent, every other list unchanged |
| BoardPage.OnTaskDeleted | taskflow-frontend/src/pages/BoardPage.jsx:94-99 | an unknown list throws; otherwise exactly the cards with that id leave that list and no other list changes |
| BoardPage.DeleteTwiceIsDeleteOnce | taskflow-frontend/src/pages/BoardPage.jsx:94-99 | applying the same deletion twice gives the result of once |
| BoardPage.DeleteRemovesExactly | taskflow-frontend/src/pages/BoardPage.jsx:243-246 | the page's own deleteTask patch removes as many cards as carry the id |
| BoardPage.OnEvent | taskflow-frontend/src/pages/BoardPage.jsx:87-111 | a move event refetches and is the only one that does; only a delete for an unknown list throws; an assignment changes nothing; an activity is prepended, the rest in order |
| BoardPage.DeleteEventIdempotent | taskflow-frontend/src/pages/BoardPage.jsx:94-99 | receiving a taskDeleted event twice is receiving it once |
| BoardPage.ActivitiesNewestFirst | taskflow-frontend/src/pages/BoardPage.jsx:109-111 | after a run of activity events the feed is the run reversed, newest first, followed by the earlier feed |
| BoardPage.HandleDragStart | taskflow-frontend/src/pages/BoardPage.jsx:140-152 | the overlay card is found in the first list in key order that holds it, and carries that list's id; none when no list holds it |
| BoardPage.FindListHolding | taskflow-frontend/src/pages/BoardPage.jsx:166-181 | the loop without break returns the last list in key order that holds the id |
| BoardPage.SpliceInIds | taskflow-frontend/src/pages/BoardPage.jsx:203-207 | on ids, the client's slice-and-spread insert is the server's splice |
| BoardPage.ArrayMovePermutes | taskflow-frontend/src/pages/BoardPage.jsx:199 | arrayMove is a permutation of the list |
| BoardPage.DropTarget | taskflow-frontend/src/pages/BoardPage.jsx:172-181 | a drop on a container targets that list; a drop on a card targets none exactly when no list holds the card, else a list holding it that is greatest among all lists holding it |
| BoardPage.DropIndex | taskflow-frontend/src/pages/BoardPage.jsx:189-194 | the index is 0 on a container, else an index of the target list where the hovered card sits |
| BoardPage.Rearrange | taskflow-frontend/src/pages/BoardPage.jsx:196-208 | the rebuilt map has the same lists, and every list other than source and target is as it was |
| BoardPage.DropIsRearrange | taskflow-frontend/src/pages/BoardPage.jsx:183-216 | a drop that sends a request has found the dragged card in its source list, a target on the page and an index in range, and the new map is Rearrange of those |
| BoardPage.HandleDragEnd | taskflow-frontend/src/pages/BoardPage.jsx:154-221 | the new map and request are those of Drop |
| BoardPage.DropSendsIffResolved | taskflow-frontend/src/pages/BoardPage.jsx:157-186 | a request is sent exactly when there is a drop target, the dragged card is found, the target list is resolved and present; otherwise the map is unchanged |
| BoardPage.DropRequestPosition | taskflow-frontend/src/pages/BoardPage.jsx:189-216 | the request names the dragged task with newPosition >= 1; a drop on a container asks for position 1 of that list, a drop on a card for one past its index |
| BoardPage.SameListDropPermutes | taskflow-frontend/src/pages/BoardPage.jsx:198-199 | a same-list drop permutes that list and leaves every other list as it was |
| BoardPage.CrossListDropKeepsCount | taskflow-frontend/src/pages/BoardPage.jsx:200-208 | a cross-list drop removes every copy from the source and adds one to the target; the two lists keep their total when the id occurred once; other lists unchanged |
| BoardPage.DropAgreesWithServer | taskflow-frontend/src/pages/BoardPage.jsx:196-216 | the optimistic target order equals the server's splice at the clamped index of the request (the corrected server for a same-list drop) |
| BoardPage.FetchTasksMap | taskflow-frontend/src/pages/BoardPage.jsx:63-67 | a refetch succeeds exactly when every list's request does, and then holds exactly those lists with their responses |
| BoardPage.ListCreated | taskflow-frontend/src/pages/BoardPage.jsx:224-228 | the list is appended and gets an empty entry; other entries unchanged |
| BoardPage.ListDeleted | taskflow-frontend/src/pages/BoardPage.jsx:230-234 | exactly the lists with another id remain |
| BoardPage.CreateThenDeleteList | taskflow-frontend/src/pages/BoardPage.jsx:224-234 | deleting a just-created list restores the lists, while tasksMap keeps an empty entry for it |

## Left out

- Socket rooms and the event fanout (server.js, activityLogger.js) are
  library wrappers, so they are not modelled. The activity rows the
  handlers insert after their writes are not modelled either. No core
  handler emits `taskCreated`, `taskDeleted` or `taskMoved`, so the page's
  reducers are modelled on their own.
- Concurrency and transaction isolation are left out: each handler is one
  atomic step.
- `getUserBoards` (boardController.js:50-73) is left out. It is a join
  ordered by `created_at`, and nothing in the core depends on it.
- User columns returned by joins (name, email) are left out. Members and
  assignees are modelled by user id.
- Foreign keys and cascades of the schema are not part of this model. A
  deleted list's tasks stay in the task table.
- The serial id counters are left out after a ROLLBACK: a failed
  `createBoard` in PostgreSQL still consumes its sequence value.
- On the page, keys are JavaScript object keys. They are modelled as list
  ids, enumerated in ascending numeric order, as JavaScript does for
  integer keys. String vs number comparisons of ids are not modelled.
- BoardPage.ArrayMove: dnd-kit's `arrayMove` is modelled only for
  in-range indices, which are the only ones a drop can produce. Its
  negative-index branch is not modelled.
- BoardPage.FetchTasksMap: the other requests of `fetchBoardData` (board,
  lists, activity, members) are parameters, not modelled.
- BoardPage.HandleDragEnd: a rejected move request is logged, and the page
  calls `fetchBoardData()` to replace the optimistic map with the server's
  (BoardPage.jsx:217-220). The model stops at the optimistic map and the
  request it sends. The refetch is `FetchTasksMap`, which is not tied to
  the failure path here.
- The loading flag, the overlay state, the window confirmations and the
  alerts are not modelled.
- The local `deleteList` leaves the list's cards in `tasksMap`. The model
  keeps them, and nothing further is modelled about them.
- Store failures outside `moveTask` and `createBoard` are not modelled.
  In `createTask`, `updateTask`, `deleteTask`, `assignUserToTask`,
  `removeUserFromTask`, the read handlers, `addBoardMember`,
  `removeBoardMember` and the list handlers, a rejected query reaches
  `next(error)` and answers 500. Each handler issues at most one table
  write. A rejected read or write leaves the tables as they were. A
  rejected activity insert after the write keeps that write. The model
  covers only the path where every query succeeds.
- TaskController.MoveTask: request fields are modelled as typed
  `Option<int>` / `Option<string>` values. JSON values of another type are
  not modelled. A string such as `"0"` is truthy and passes the 400 guard
  of taskController.js:308, and a fractional `newPosition` is truncated by
  `splice` (taskController.js:370-371).
- BoardController.Feed: `created_at` ties are returned in reverse table
  order, where SQL leaves their order open. The model assumes the table is
  in `created_at` order, as rows appended with a clock timestamp are, and
  `Store.Database.Valid` states that assumption.
- BoardController.GetBoardMembers: the `joined_at` column is not
  modelled. Rows are appended as members join, so table order stands for
  `ORDER BY bm.joined_at ASC`, ties included.
- Authentication (`protect`, JWT) is not modelled: the caller's user id is
  a parameter.

## Findings

| source | as written | input that shows it | evidently intended | confidence | as-written member | corrected member |
|---|---|---|---|---|---|---|
| taskflow-backend/src/controllers/taskController.js:361-385 | the target read includes the moved task when source and target are the same list, so the splice holds it twice and the later write of its position wins | tasks 1, 2, 3 at positions 1, 2, 3 of one list; move task 3 to newPosition 1: positions become 1→2, 2→3, 3→4, the order is unchanged and position 1 is empty | the task moves to the front: 3→1, 1→2, 2→3 (the read excludes the moved task) | high; not executed | TaskController.MoveTask, TaskController.SameListMoveToFrontIsLost | TaskController.MoveTaskFixed, TaskController.MoveIsDense, TaskController.SameListMoveToFrontFixed |
