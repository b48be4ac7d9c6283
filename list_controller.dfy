/** The list handlers of taskflow-backend/src/controllers/listController.js:
    a new list goes after every list of its board, lists are read in position
    order, renaming touches only the title, and deleting removes only the
    list row. Every handler is gated on board membership.

    The file calls `logActivity` without importing it. `createList` and
    `deleteList` therefore throw a ReferenceError after their write has
    completed, outside any transaction: the row change stays and the request
    answers 500. */
module ListController {
  import opened Common
  import opened Positions
  import opened Store

  /** `POST /lists`. */
  method CreateList(db: Database, boardId: Option<BoardId>, title: Option<string>, userId: UserId)
    returns (status: int, created: Option<ListId>)
    requires db.Valid()
    modifies db`lists, db`nextListId
    ensures db.Valid()
    ensures status ==
              if !Truthy(boardId) || !TruthyText(title) then HTTP_BAD_REQUEST
              else if !IsMember(db.members, boardId.value, userId) then HTTP_FORBIDDEN
              else HTTP_SERVER_ERROR
    ensures status != HTTP_SERVER_ERROR ==>
              created.None? && db.lists == old(db.lists) && db.nextListId == old(db.nextListId)
    ensures status == HTTP_SERVER_ERROR ==>
              && created == Some(old(db.nextListId))
              && created.value !in old(db.lists)
              && db.lists == old(db.lists)[created.value :=
                   ListRow(boardId.value, title.value, NextPosition(BoardPositions(old(db.lists), boardId.value)))]
  {
    created := None;
    if !Truthy(boardId) || !TruthyText(title) {
      return HTTP_BAD_REQUEST, created;
    }
    if !IsMember(db.members, boardId.value, userId) {
      return HTTP_FORBIDDEN, created;
    }
    var newPosition := NextPosition(BoardPositions(db.lists, boardId.value));
    var id := db.nextListId;
    db.lists := db.lists[id := ListRow(boardId.value, title.value, newPosition)];
    db.nextListId := id + 1;
    created := Some(id);
    status := HTTP_SERVER_ERROR;                            // logActivity is not defined here
  }

  /** A created list comes last in every position-ordered read of its board,
      after the board's earlier lists in their order, gaps or not. */
  lemma CreatedListComesLast(lists: map<ListId, ListRow>, b: BoardId, id: ListId, title: string, ids: seq<ListId>)
    requires id !in lists
    requires OrderedRead(BoardPositions(lists[id := ListRow(b, title, NextPosition(BoardPositions(lists, b)))], b), ids)
    ensures |ids| > 0 && ids[|ids| - 1] == id
    ensures OrderedRead(BoardPositions(lists, b), ids[..|ids| - 1])
  {
    var old_ := BoardPositions(lists, b);
    var pos := BoardPositions(lists[id := ListRow(b, title, NextPosition(old_))], b);
    assert id in pos;
    var last := |ids| - 1;
    forall x | x in pos && x != id
      ensures pos[x] < pos[id]
    {
      assert x in old_ && pos[x] == old_[x];
    }
    GreatestComesLast(pos, ids, id);
    assert pos - {id} == old_;
    OrderedReadWithout(pos, ids, last);
    assert ids[..last] + ids[last + 1..] == ids[..last];
  }

  /** `GET /lists/:boardId`, the path the board page requests: members
      only; the board's lists in position order. */
  method GetListsByBoard(db: Database, boardId: BoardId, userId: UserId) returns (status: int, ids: seq<ListId>)
    ensures status == if IsMember(db.members, boardId, userId) then HTTP_OK else HTTP_FORBIDDEN
    ensures status == HTTP_OK ==> OrderedRead(BoardPositions(db.lists, boardId), ids)
    ensures status != HTTP_OK ==> ids == []
  {
    ids := [];
    if !IsMember(db.members, boardId, userId) {
      return HTTP_FORBIDDEN, ids;
    }
    ids := SelectOrdered(BoardPositions(db.lists, boardId));
    status := HTTP_OK;
  }

  /** `PUT /lists/:id`: renames a list. */
  method UpdateList(db: Database, id: ListId, title: Option<string>, userId: UserId) returns (status: int)
    requires db.Valid()
    modifies db`lists
    ensures db.Valid()
    ensures status ==
              if !TruthyText(title) then HTTP_BAD_REQUEST
              else if id !in old(db.lists) then HTTP_NOT_FOUND
              else if !IsMember(db.members, old(db.lists)[id].boardId, userId) then HTTP_FORBIDDEN
              else HTTP_OK
    ensures status != HTTP_OK ==> db.lists == old(db.lists)
    ensures status == HTTP_OK ==> db.lists == old(db.lists)[id := old(db.lists)[id].(title := title.value)]
  {
    if !TruthyText(title) {
      return HTTP_BAD_REQUEST;
    }
    if id !in db.lists {
      return HTTP_NOT_FOUND;
    }
    if !IsMember(db.members, db.lists[id].boardId, userId) {
      return HTTP_FORBIDDEN;
    }
    db.lists := db.lists[id := db.lists[id].(title := title.value)];
    status := HTTP_OK;
  }

  /** Renaming a list reorders nothing: every board keeps its positions. */
  lemma RenameKeepsOrder(lists: map<ListId, ListRow>, id: ListId, title: string)
    requires id in lists
    ensures forall b :: BoardPositions(lists[id := lists[id].(title := title)], b) == BoardPositions(lists, b)
  {
    var renamed := lists[id := lists[id].(title := title)];
    forall b
      ensures BoardPositions(renamed, b) == BoardPositions(lists, b)
    {
    }
  }

  /** `DELETE /lists/:id`: removes the list row; its tasks are not touched
      here. */
  method DeleteList(db: Database, id: ListId, userId: UserId) returns (status: int)
    requires db.Valid()
    modifies db`lists
    ensures db.Valid()
    ensures status ==
              if id !in old(db.lists) then HTTP_NOT_FOUND
              else if !IsMember(db.members, old(db.lists)[id].boardId, userId) then HTTP_FORBIDDEN
              else HTTP_SERVER_ERROR
    ensures status != HTTP_SERVER_ERROR ==> db.lists == old(db.lists)
    ensures status == HTTP_SERVER_ERROR ==> db.lists == old(db.lists) - {id}
  {
    if id !in db.lists {
      return HTTP_NOT_FOUND;
    }
    if !IsMember(db.members, db.lists[id].boardId, userId) {
      return HTTP_FORBIDDEN;
    }
    db.lists := db.lists - {id};
    status := HTTP_SERVER_ERROR;                            // logActivity is not defined here
  }

  /** Deleting a list keeps the other lists of its board in their order,
      and every other board's lists as they were. */
  lemma DeleteListKeepsOrder(lists: map<ListId, ListRow>, id: ListId, ids: seq<ListId>, i: nat)
    requires id in lists && i < |ids| && ids[i] == id
    requires OrderedRead(BoardPositions(lists, lists[id].boardId), ids)
    ensures OrderedRead(BoardPositions(lists - {id}, lists[id].boardId), ids[..i] + ids[i + 1..])
    ensures forall b :: b != lists[id].boardId ==> BoardPositions(lists - {id}, b) == BoardPositions(lists, b)
  {
    var b := lists[id].boardId;
    assert BoardPositions(lists - {id}, b) == BoardPositions(lists, b) - {id};
    OrderedReadWithout(BoardPositions(lists, b), ids, i);
    forall b' | b' != b
      ensures BoardPositions(lists - {id}, b') == BoardPositions(lists, b')
    {
    }
  }
}
