/** The tables the handlers read and write (`users`, `boards`,
    `board_members`, `lists`, `tasks`, `task_assignments`, `activities`),
    held as one in-memory database object, together with the queries and
    row-by-row updates the handlers issue against them. */
module Store {
  import opened Common
  import opened Positions

  type UserId = int
  type BoardId = int
  type ListId = int
  type TaskId = int

  const ADMIN: string := "admin"
  const MEMBER: string := "member"

  datatype Board = Board(title: string, ownerId: UserId)
  datatype ListRow = ListRow(boardId: BoardId, title: string, position: int)
  datatype Task = Task(listId: ListId, title: string, description: Option<string>,
                       dueDate: Option<string>, position: int, createdBy: UserId)
  /** A `board_members` row. The role column is free text; the handlers only
      ever compare it with "admin". */
  datatype Member = Member(boardId: BoardId, userId: UserId, role: string)
  datatype Activity = Activity(boardId: BoardId, userId: UserId, actionType: string,
                               entityId: int, createdAt: int)

  // ---------------------------------------------------------------------
  // board_members

  /** The role of the first row for (b, u): what
      `SELECT role FROM board_members WHERE board_id = b AND user_id = u`
      yields as `rows[0].role`; `None` when there is no such row. */
  function RoleOf(ms: seq<Member>, b: BoardId, u: UserId): (r: Option<string>)
    ensures r.Some? <==> exists i :: 0 <= i < |ms| && ms[i].boardId == b && ms[i].userId == u
  {
    if ms == [] then None
    else if ms[0].boardId == b && ms[0].userId == u then Some(ms[0].role)
    else
      var r := RoleOf(ms[1..], b, u);
      assert forall i :: 1 <= i < |ms| ==> ms[i] == ms[1..][i - 1];
      r
  }

  /** The membership gate of every handler: some row for (b, u) exists. */
  predicate IsMember(ms: seq<Member>, b: BoardId, u: UserId)
  {
    RoleOf(ms, b, u).Some?
  }

  /** `SELECT COUNT(*) FROM board_members WHERE board_id = b AND role = 'admin'`. */
  function AdminCount(ms: seq<Member>, b: BoardId): nat
  {
    if ms == [] then 0
    else (if ms[0].boardId == b && ms[0].role == ADMIN then 1 else 0) + AdminCount(ms[1..], b)
  }

  /** No two rows share a (board, user) pair. */
  predicate UniqueMembers(ms: seq<Member>)
  {
    ms == [] || (RoleOf(ms[1..], ms[0].boardId, ms[0].userId).None? && UniqueMembers(ms[1..]))
  }

  /** `DELETE FROM board_members WHERE board_id = b AND user_id = u`. */
  function WithoutMember(ms: seq<Member>, b: BoardId, u: UserId): seq<Member>
  {
    if ms == [] then []
    else if ms[0].boardId == b && ms[0].userId == u then WithoutMember(ms[1..], b, u)
    else [ms[0]] + WithoutMember(ms[1..], b, u)
  }

  /** The rows of one board whose user is registered, in table order:
      `FROM board_members bm JOIN users u ON bm.user_id = u.id WHERE
      bm.board_id = b`. Rows are appended as members join, so table order
      is `joined_at` order. */
  function MembersOf(ms: seq<Member>, b: BoardId, users: set<UserId>): (r: seq<Member>)
    ensures |r| <= |ms|
  {
    if ms == [] then []
    else if ms[0].boardId == b && ms[0].userId in users then [ms[0]] + MembersOf(ms[1..], b, users)
    else MembersOf(ms[1..], b, users)
  }

  /** A row that joins later is listed later: the view of the table with
      one more row is the earlier view followed by that row, when it
      belongs to the board and its user is registered. */
  lemma {:induction false} MembersOfAppend(ms: seq<Member>, m: Member, b: BoardId, users: set<UserId>)
    ensures MembersOf(ms + [m], b, users) ==
              MembersOf(ms, b, users) + (if m.boardId == b && m.userId in users then [m] else [])
  {
    if ms != [] {
      assert (ms + [m])[1..] == ms[1..] + [m];
      MembersOfAppend(ms[1..], m, b, users);
    }
  }

  /** The first row for (b, u) gives the role: a row for (b, u) with no
      earlier one is the `rows[0]` of the role query. */
  lemma {:induction false} RoleOfIsFirstRow(ms: seq<Member>, b: BoardId, u: UserId, i: nat)
    requires i < |ms| && ms[i].boardId == b && ms[i].userId == u
    requires forall j :: 0 <= j < i ==> !(ms[j].boardId == b && ms[j].userId == u)
    ensures RoleOf(ms, b, u) == Some(ms[i].role)
  {
    if i > 0 {
      assert !(ms[0].boardId == b && ms[0].userId == u);
      assert forall j :: 0 <= j < i - 1 ==> ms[1..][j] == ms[j + 1];
      RoleOfIsFirstRow(ms[1..], b, u, i - 1);
    }
  }

  lemma {:induction false} RoleOfAppend(ms: seq<Member>, m: Member, b: BoardId, u: UserId)
    ensures RoleOf(ms + [m], b, u) ==
              if RoleOf(ms, b, u).Some? then RoleOf(ms, b, u)
              else if m.boardId == b && m.userId == u then Some(m.role)
              else None
  {
    if ms != [] {
      assert (ms + [m])[1..] == ms[1..] + [m];
      RoleOfAppend(ms[1..], m, b, u);
    }
  }

  lemma {:induction false} AdminCountAppend(ms: seq<Member>, m: Member, b: BoardId)
    ensures AdminCount(ms + [m], b) == AdminCount(ms, b) + (if m.boardId == b && m.role == ADMIN then 1 else 0)
  {
    if ms != [] {
      assert (ms + [m])[1..] == ms[1..] + [m];
      AdminCountAppend(ms[1..], m, b);
    }
  }

  lemma {:induction false} UniqueAppend(ms: seq<Member>, m: Member)
    requires UniqueMembers(ms) && RoleOf(ms, m.boardId, m.userId).None?
    ensures UniqueMembers(ms + [m])
  {
    if ms != [] {
      assert (ms + [m])[1..] == ms[1..] + [m];
      RoleOfAppend(ms[1..], m, ms[0].boardId, ms[0].userId);
      UniqueAppend(ms[1..], m);
    }
  }

  /** After the delete no row for (b, u) is left, and every other pair's
      role is as before. */
  lemma {:induction false} RoleOfWithout(ms: seq<Member>, b: BoardId, u: UserId, b': BoardId, u': UserId)
    ensures RoleOf(WithoutMember(ms, b, u), b', u') ==
              if b' == b && u' == u then None else RoleOf(ms, b', u')
  {
    if ms != [] {
      RoleOfWithout(ms[1..], b, u, b', u');
    }
  }

  lemma {:induction false} UniqueWithout(ms: seq<Member>, b: BoardId, u: UserId)
    requires UniqueMembers(ms)
    ensures UniqueMembers(WithoutMember(ms, b, u))
  {
    if ms != [] {
      UniqueWithout(ms[1..], b, u);
      RoleOfWithout(ms[1..], b, u, ms[0].boardId, ms[0].userId);
    }
  }

  /** Deleting the one row of (b, u) lowers b's admin count by one exactly
      when that row is an admin row, and leaves every other board's count. */
  lemma {:induction false} AdminCountWithout(ms: seq<Member>, b: BoardId, u: UserId, b': BoardId)
    requires UniqueMembers(ms)
    ensures AdminCount(WithoutMember(ms, b, u), b') ==
              AdminCount(ms, b') - (if b' == b && RoleOf(ms, b, u) == Some(ADMIN) then 1 else 0)
  {
    if ms != [] {
      AdminCountWithout(ms[1..], b, u, b');
      if ms[0].boardId == b && ms[0].userId == u {
        assert RoleOf(ms[1..], b, u).None?;
        RoleOfWithout(ms[1..], b, u, b, u);
        AdminCountNoRow(ms[1..], b, u, b');
      }
    }
  }

  /** Deleting (b, u) changes no count when there is no row for (b, u). */
  lemma {:induction false} AdminCountNoRow(ms: seq<Member>, b: BoardId, u: UserId, b': BoardId)
    requires RoleOf(ms, b, u).None?
    ensures AdminCount(WithoutMember(ms, b, u), b') == AdminCount(ms, b')
  {
    if ms != [] {
      AdminCountNoRow(ms[1..], b, u, b');
    }
  }

  /** Every row of one board is an admin row or not, so the admin count of
      a board holding an admin (b, u) is at least one. */
  lemma {:induction false} AdminRowCounts(ms: seq<Member>, b: BoardId, u: UserId)
    requires RoleOf(ms, b, u) == Some(ADMIN)
    ensures AdminCount(ms, b) >= 1
  {
    if ms[0].boardId != b || ms[0].userId != u {
      AdminRowCounts(ms[1..], b, u);
    }
  }

  /** The members view of one board gives every registered user the role
      the table gives them on that board, and no role to anyone else. */
  lemma {:induction false} MembersOfAgrees(ms: seq<Member>, b: BoardId, users: set<UserId>, u: UserId)
    ensures RoleOf(MembersOf(ms, b, users), b, u) == if u in users then RoleOf(ms, b, u) else None
  {
    if ms != [] {
      MembersOfAgrees(ms[1..], b, users, u);
    }
  }

  /** The delete keeps only rows that were there. */
  lemma {:induction false} WithoutMemberSubset(ms: seq<Member>, b: BoardId, u: UserId)
    ensures forall m :: m in WithoutMember(ms, b, u) ==> m in ms && !(m.boardId == b && m.userId == u)
  {
    if ms != [] {
      WithoutMemberSubset(ms[1..], b, u);
    }
  }

  /** The view holds exactly the board's rows whose user is registered. */
  lemma {:induction false} MembersOfBoard(ms: seq<Member>, b: BoardId, users: set<UserId>)
    ensures forall m :: m in MembersOf(ms, b, users) <==> m in ms && m.boardId == b && m.userId in users
  {
    if ms != [] {
      MembersOfBoard(ms[1..], b, users);
      assert forall m :: m in ms <==> m == ms[0] || m in ms[1..];
    }
  }

  /** No user appears twice in the view when the table has no duplicate
      (board, user) pair. */
  lemma {:induction false} MembersOfUnique(ms: seq<Member>, b: BoardId, users: set<UserId>)
    requires UniqueMembers(ms)
    ensures UniqueMembers(MembersOf(ms, b, users))
  {
    if ms != [] {
      MembersOfUnique(ms[1..], b, users);
      if ms[0].boardId == b && ms[0].userId in users {
        MembersOfAgrees(ms[1..], b, users, ms[0].userId);
        assert MembersOf(ms, b, users)[1..] == MembersOf(ms[1..], b, users);
      }
    }
  }

  // ---------------------------------------------------------------------
  // activities

  /** Activities are appended as they happen, with `created_at` from the
      clock, so the table is in `created_at` order. */
  predicate Chronological(acts: seq<Activity>)
  {
    forall i, j :: 0 <= i < j < |acts| ==> acts[i].createdAt <= acts[j].createdAt
  }

  // ---------------------------------------------------------------------
  // lists and tasks

  /** The positions of the tasks of list `l` (the rows `WHERE list_id = l`). */
  function ListPositions(tasks: map<TaskId, Task>, l: ListId): map<TaskId, int>
  {
    map id | id in tasks && tasks[id].listId == l :: tasks[id].position
  }

  /** The positions of the lists of board `b` (the rows `WHERE board_id = b`). */
  function BoardPositions(lists: map<ListId, ListRow>, b: BoardId): map<ListId, int>
  {
    map id | id in lists && lists[id].boardId == b :: lists[id].position
  }

  /** The last index of `id` in `order`. */
  function LastIndex(order: seq<TaskId>, id: TaskId): (i: nat)
    requires id in order
    ensures i < |order| && order[i] == id
    ensures forall j :: i < j < |order| ==> order[j] != id
  {
    if order[|order| - 1] == id then |order| - 1
    else
      assert id in order[..|order| - 1];
      LastIndex(order[..|order| - 1], id)
  }

  /** The rewrite loop `for i: UPDATE tasks SET position = i + 1 WHERE id = order[i]`;
      an id with no row updates nothing. */
  function WritePositions(tasks: map<TaskId, Task>, order: seq<TaskId>): map<TaskId, Task>
  {
    if order == [] then tasks
    else
      var before := WritePositions(tasks, order[..|order| - 1]);
      var id := order[|order| - 1];
      if id in before then before[id := before[id].(position := |order|)] else before
  }

  /** The rewrite loop neither adds nor removes rows. */
  lemma {:induction false} WritePositionsKeys(tasks: map<TaskId, Task>, order: seq<TaskId>)
    ensures WritePositions(tasks, order).Keys == tasks.Keys
  {
    if order != [] {
      WritePositionsKeys(tasks, order[..|order| - 1]);
    }
  }

  /** What the rewrite loop leaves in each row: the same rows, and each id of
      `order` at one more than its last index in `order`, all else as it was. */
  lemma {:induction false} WritePositionsAt(tasks: map<TaskId, Task>, order: seq<TaskId>)
    ensures WritePositions(tasks, order).Keys == tasks.Keys
    ensures forall id :: id in tasks ==>
              WritePositions(tasks, order)[id] ==
                if id in order then tasks[id].(position := LastIndex(order, id) + 1) else tasks[id]
  {
    if order != [] {
      var init := order[..|order| - 1];
      WritePositionsAt(tasks, init);
      forall id | id in tasks
        ensures WritePositions(tasks, order)[id] ==
                  if id in order then tasks[id].(position := LastIndex(order, id) + 1) else tasks[id]
      {
        assert order == init + [order[|order| - 1]];
        if id != order[|order| - 1] && id in order {
          assert id in init;
        }
      }
    }
  }

  lemma {:induction false} LastIndexNoDup(order: seq<TaskId>, i: nat)
    requires NoDup(order) && i < |order|
    ensures LastIndex(order, order[i]) == i
  {
  }

  // ---------------------------------------------------------------------
  // the database

  class Database {
    var users: set<UserId>
    var boards: map<BoardId, Board>
    var lists: map<ListId, ListRow>
    var tasks: map<TaskId, Task>
    var members: seq<Member>
    var assignments: set<(TaskId, UserId)>
    var activities: seq<Activity>
    // The next values of the SERIAL id columns.
    var nextBoardId: int
    var nextListId: int
    var nextTaskId: int

    /** The invariant every committed handler keeps: no duplicate
        memberships, every membership on an existing board, at least one
        admin on every board, and fresh SERIAL values. */
    ghost predicate Valid()
      reads this
    {
      && UniqueMembers(members)
      && (forall m :: m in members ==> m.boardId in boards)
      && (forall b :: b in boards ==> AdminCount(members, b) >= 1)
      && 1 <= nextBoardId && (forall b :: b in boards ==> b < nextBoardId)
      && 1 <= nextListId && (forall l :: l in lists ==> l < nextListId)
      && 1 <= nextTaskId && (forall t :: t in tasks ==> t < nextTaskId)
      && Chronological(activities)
    }

    /** An empty database over the registered `users`. */
    constructor (users: set<UserId>)
      ensures Valid()
      ensures this.users == users && boards == map[] && lists == map[] && tasks == map[]
      ensures members == [] && assignments == {} && activities == []
    {
      this.users := users;
      boards, lists, tasks := map[], map[], map[];
      members, assignments, activities := [], {}, [];
      nextBoardId, nextListId, nextTaskId := 1, 1, 1;
    }
  }
}
