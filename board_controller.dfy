/** The board handlers of taskflow-backend/src/controllers/boardController.js:
    creating a board (the board row and its creator's admin membership in one
    transaction), adding and removing members under the admin-only and
    last-admin rules, and the member-only reads of a board, its members and
    its activity feed. */
module BoardController {
  import opened Common
  import opened Store

  /** `POST /boards`. `fault` is the index of the insert the store rejects:
      0 for the board row, 1 for the membership row; either rolls both back. */
  method CreateBoard(db: Database, title: Option<string>, userId: UserId, fault: Option<nat>)
    returns (status: int, created: Option<BoardId>)
    requires db.Valid()
    modifies db`boards, db`members, db`nextBoardId
    ensures db.Valid()
    ensures status ==
              if !TruthyText(title) then HTTP_BAD_REQUEST
              else if fault == Some(0) || fault == Some(1) then HTTP_SERVER_ERROR
              else HTTP_CREATED
    ensures status != HTTP_CREATED ==>
              created.None? && db.boards == old(db.boards) && db.members == old(db.members)
    ensures status == HTTP_CREATED ==>
              && created == Some(old(db.nextBoardId))
              && created.value !in old(db.boards)
              && db.boards == old(db.boards)[created.value := Board(title.value, userId)]
              && db.members == old(db.members) + [Member(created.value, userId, ADMIN)]
              && RoleOf(db.members, created.value, userId) == Some(ADMIN)
  {
    created := None;
    if !TruthyText(title) {
      return HTTP_BAD_REQUEST, created;
    }
    // BEGIN: the two inserts work on copies that only COMMIT publishes.
    var boards, members := db.boards, db.members;
    if fault == Some(0) {
      return HTTP_SERVER_ERROR, created;                   // ROLLBACK
    }
    var id := db.nextBoardId;
    boards := boards[id := Board(title.value, userId)];
    if fault == Some(1) {
      return HTTP_SERVER_ERROR, created;                   // ROLLBACK
    }
    var admin := Member(id, userId, ADMIN);
    assert RoleOf(members, id, userId).None?;
    UniqueAppend(members, admin);
    RoleOfAppend(members, admin, id, userId);
    forall b | b in boards
      ensures AdminCount(members + [admin], b) >= 1
    {
      AdminCountAppend(members, admin, b);
    }
    members := members + [admin];
    db.boards, db.members, db.nextBoardId := boards, members, id + 1;   // COMMIT
    status, created := HTTP_CREATED, Some(id);
  }

  /** `POST /boards/:boardId/members`: an admin adds a registered user who is
      not yet on the board, with the given role or "member". */
  method AddBoardMember(db: Database, boardId: BoardId, userId: Option<UserId>, role: Option<string>,
                        currentUserId: UserId)
    returns (status: int)
    requires db.Valid()
    modifies db`members
    ensures db.Valid()
    ensures status ==
              if !Truthy(userId) then HTTP_BAD_REQUEST
              else if RoleOf(old(db.members), boardId, currentUserId).None? then HTTP_FORBIDDEN
              else if RoleOf(old(db.members), boardId, currentUserId) != Some(ADMIN) then HTTP_FORBIDDEN
              else if userId.value !in db.users then HTTP_NOT_FOUND
              else if IsMember(old(db.members), boardId, userId.value) then HTTP_BAD_REQUEST
              else HTTP_CREATED
    ensures status != HTTP_CREATED ==> db.members == old(db.members)
    ensures status == HTTP_CREATED ==>
              && db.members == old(db.members) + [Member(boardId, userId.value, OrElse(role, MEMBER))]
              && RoleOf(db.members, boardId, userId.value) == Some(OrElse(role, MEMBER))
  {
    if !Truthy(userId) {
      return HTTP_BAD_REQUEST;
    }
    var current := RoleOf(db.members, boardId, currentUserId);
    if current.None? {
      return HTTP_FORBIDDEN;                                // "Access denied"
    }
    if current != Some(ADMIN) {
      return HTTP_FORBIDDEN;                                // "Only admin can add members"
    }
    if userId.value !in db.users {
      return HTTP_NOT_FOUND;
    }
    if IsMember(db.members, boardId, userId.value) {
      return HTTP_BAD_REQUEST;                              // "User is already a member"
    }
    var row := Member(boardId, userId.value, OrElse(role, MEMBER));
    assert boardId in db.boards by {
      var i :| 0 <= i < |db.members| && db.members[i].boardId == boardId && db.members[i].userId == currentUserId;
      assert db.members[i] in db.members;
    }
    UniqueAppend(db.members, row);
    RoleOfAppend(db.members, row, boardId, userId.value);
    forall b | b in db.boards
      ensures AdminCount(db.members + [row], b) >= 1
    {
      AdminCountAppend(db.members, row, b);
    }
    db.members := db.members + [row];
    status := HTTP_CREATED;
  }

  /** `DELETE /boards/:boardId/members/:userId`: an admin removes a member,
      unless that member is the board's last admin. */
  method RemoveBoardMember(db: Database, boardId: BoardId, userId: UserId, currentUserId: UserId)
    returns (status: int)
    requires db.Valid()
    modifies db`members
    ensures db.Valid()
    ensures status ==
              if RoleOf(old(db.members), boardId, currentUserId).None? then HTTP_FORBIDDEN
              else if RoleOf(old(db.members), boardId, currentUserId) != Some(ADMIN) then HTTP_FORBIDDEN
              else if RoleOf(old(db.members), boardId, userId).None? then HTTP_NOT_FOUND
              else if RoleOf(old(db.members), boardId, userId) == Some(ADMIN)
                      && AdminCount(old(db.members), boardId) <= 1 then HTTP_BAD_REQUEST
              else HTTP_OK
    ensures status != HTTP_OK ==> db.members == old(db.members)
    ensures status == HTTP_OK ==>
              && db.members == WithoutMember(old(db.members), boardId, userId)
              && !IsMember(db.members, boardId, userId)
              && AdminCount(db.members, boardId) >= 1
  {
    var current := RoleOf(db.members, boardId, currentUserId);
    if current.None? {
      return HTTP_FORBIDDEN;                                // "Access denied"
    }
    if current != Some(ADMIN) {
      return HTTP_FORBIDDEN;                                // "Only admin can remove members"
    }
    var target := RoleOf(db.members, boardId, userId);
    if target.None? {
      return HTTP_NOT_FOUND;                                // "Member not found"
    }
    if target == Some(ADMIN) && AdminCount(db.members, boardId) <= 1 {
      return HTTP_BAD_REQUEST;                              // "Cannot remove last admin"
    }
    AdminRowCounts(db.members, boardId, currentUserId);
    var rest := WithoutMember(db.members, boardId, userId);
    UniqueWithout(db.members, boardId, userId);
    WithoutMemberSubset(db.members, boardId, userId);
    RoleOfWithout(db.members, boardId, userId, boardId, userId);
    forall b | b in db.boards
      ensures AdminCount(rest, b) >= 1
    {
      AdminCountWithout(db.members, boardId, userId, b);
    }
    AdminCountWithout(db.members, boardId, userId, boardId);
    db.members := rest;
    status := HTTP_OK;
  }

  /** `GET /boards/:id`: members only; 404 for a board that does not exist. */
  method GetSingleBoard(db: Database, id: BoardId, userId: UserId) returns (status: int, board: Option<Board>)
    ensures status ==
              if !IsMember(db.members, id, userId) then HTTP_FORBIDDEN
              else if id !in db.boards then HTTP_NOT_FOUND
              else HTTP_OK
    ensures board.Some? <==> status == HTTP_OK
    ensures status == HTTP_OK ==> board == Some(db.boards[id])
  {
    board := None;
    if !IsMember(db.members, id, userId) {
      return HTTP_FORBIDDEN, board;
    }
    if id !in db.boards {
      return HTTP_NOT_FOUND, board;
    }
    status, board := HTTP_OK, Some(db.boards[id]);
  }

  /** `GET /boards/:boardId/members`: members only; the board's rows whose
      user is registered (the join with `users`), in the order they joined,
      each user once, with the role the table holds. */
  method GetBoardMembers(db: Database, boardId: BoardId, userId: UserId)
    returns (status: int, rows: seq<Member>)
    requires db.Valid()
    ensures status == if IsMember(db.members, boardId, userId) then HTTP_OK else HTTP_FORBIDDEN
    ensures status != HTTP_OK ==> rows == []
    ensures status == HTTP_OK ==>
              && rows == MembersOf(db.members, boardId, db.users)
              && (forall m :: m in rows <==> m in db.members && m.boardId == boardId && m.userId in db.users)
              && UniqueMembers(rows)
              && (forall u :: RoleOf(rows, boardId, u) == if u in db.users then RoleOf(db.members, boardId, u) else None)
  {
    rows := [];
    if !IsMember(db.members, boardId, userId) {
      return HTTP_FORBIDDEN, rows;
    }
    rows := MembersOf(db.members, boardId, db.users);
    MembersOfBoard(db.members, boardId, db.users);
    MembersOfUnique(db.members, boardId, db.users);
    forall u
      ensures RoleOf(rows, boardId, u) == if u in db.users then RoleOf(db.members, boardId, u) else None
    {
      MembersOfAgrees(db.members, boardId, db.users, u);
    }
    status := HTTP_OK;
  }

  // ---------------------------------------------------------------------
  // the activity feed

  /** The activities of one board, in table order. */
  function OfBoard(acts: seq<Activity>, b: BoardId): (r: seq<Activity>)
    ensures |r| <= |acts|
    ensures forall a :: a in r ==> a in acts && a.boardId == b
    ensures forall a :: a in acts && a.boardId == b ==> a in r
  {
    if acts == [] then []
    else if acts[0].boardId == b then [acts[0]] + OfBoard(acts[1..], b)
    else OfBoard(acts[1..], b)
  }

  const FEED_LIMIT: nat := 50

  /** `ORDER BY a.created_at DESC LIMIT 50` over the board's activities: the
      last `FEED_LIMIT` entries, newest first. */
  function Feed(acts: seq<Activity>, b: BoardId): (r: seq<Activity>)
    ensures |r| == Min(FEED_LIMIT, |OfBoard(acts, b)|)
    ensures forall a :: a in r ==> a in acts && a.boardId == b
  {
    var mine := OfBoard(acts, b);
    var recent := mine[|mine| - Min(FEED_LIMIT, |mine|)..];
    assert forall a :: a in recent ==> a in mine;
    Reverse(recent)
  }

  /** Filtering keeps the table's chronological order. */
  lemma {:induction false} OfBoardChronological(acts: seq<Activity>, b: BoardId)
    requires Chronological(acts)
    ensures Chronological(OfBoard(acts, b))
  {
    if acts != [] {
      assert Chronological(acts[1..]);
      OfBoardChronological(acts[1..], b);
      if acts[0].boardId == b {
        var r := OfBoard(acts, b);
        forall i, j | 0 <= i < j < |r|
          ensures r[i].createdAt <= r[j].createdAt
        {
          if i == 0 {
            assert r[j] in acts[1..];
          }
        }
      }
    }
  }

  /** The feed is newest first, and no activity of the board left out of it
      is newer than any activity in it. */
  lemma FeedIsNewestFirst(acts: seq<Activity>, b: BoardId)
    requires Chronological(acts)
    ensures var r := Feed(acts, b);
            && (forall i, j :: 0 <= i < j < |r| ==> r[i].createdAt >= r[j].createdAt)
            && (forall a, k :: a in OfBoard(acts, b) && a !in r && 0 <= k < |r| ==> a.createdAt <= r[k].createdAt)
  {
    OfBoardChronological(acts, b);
    var mine := OfBoard(acts, b);
    var start := |mine| - Min(FEED_LIMIT, |mine|);
    var r := Feed(acts, b);
    assert forall k :: 0 <= k < |r| ==> r[k] == mine[|mine| - 1 - k];
    forall i | start <= i < |mine|
      ensures mine[i] in r
    {
      assert r[|mine| - 1 - i] == mine[i];
    }
    forall a, k | a in mine && a !in r && 0 <= k < |r|
      ensures a.createdAt <= r[k].createdAt
    {
      var i :| 0 <= i < |mine| && mine[i] == a;
      assert i < start <= |mine| - 1 - k;
    }
  }

  /** `GET /boards/:boardId/activity`: members only; the board's newest
      `FEED_LIMIT` activities, newest first. */
  method GetBoardActivity(db: Database, boardId: BoardId, userId: UserId)
    returns (status: int, feed: seq<Activity>)
    requires db.Valid()
    ensures status == if IsMember(db.members, boardId, userId) then HTTP_OK else HTTP_FORBIDDEN
    ensures status != HTTP_OK ==> feed == []
    ensures status == HTTP_OK ==>
              && feed == Feed(db.activities, boardId)
              && (forall i, j :: 0 <= i < j < |feed| ==> feed[i].createdAt >= feed[j].createdAt)
              && (forall a, k :: a in OfBoard(db.activities, boardId) && a !in feed && 0 <= k < |feed| ==>
                                 a.createdAt <= feed[k].createdAt)
  {
    feed := [];
    if !IsMember(db.members, boardId, userId) {
      return HTTP_FORBIDDEN, feed;
    }
    FeedIsNewestFirst(db.activities, boardId);
    status, feed := HTTP_OK, Feed(db.activities, boardId);
  }
}
