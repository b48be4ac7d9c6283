/** The board page's client state and how it reacts to socket events, drags
    and its own list and task requests.

    `tasksMap` sends each list id (a key of a JavaScript object) to the cards
    the page shows in that list. Socket events patch it, a drag rewrites it
    optimistically and sends one move request, and a full refetch rebuilds it
    from one `/tasks/list/:id` response per list. */
module BoardPage {
  import opened Common
  import opened Positions
  import opened Store

  /** A task object as the page holds it: the server's columns the page
      uses, and the extra `listId` property that a drag or a drag start
      copies onto the object (`clientList`), distinct from the `list_id`
      column (`listId`). */
  datatype Card = Card(id: TaskId, listId: ListId, title: string, clientList: Option<ListId>)

  type TasksMap = map<ListId, seq<Card>>

  // ---------------------------------------------------------------------
  // Sequence helpers: `some`, `findIndex`, `filter`

  /** `cards.some(t => t.id === id)`. */
  predicate Holds(cards: seq<Card>, id: TaskId)
  {
    exists i :: 0 <= i < |cards| && cards[i].id == id
  }

  /** `cards.findIndex(t => t.id === id)`: the first index holding `id`, or -1. */
  function IndexOf(cards: seq<Card>, id: TaskId): (r: int)
    ensures -1 <= r < |cards|
    ensures r == -1 <==> !Holds(cards, id)
    ensures r >= 0 ==> cards[r].id == id && forall j :: 0 <= j < r ==> cards[j].id != id
  {
    if cards == [] then -1
    else if cards[0].id == id then 0
    else
      var r := IndexOf(cards[1..], id);
      assert forall i :: 1 <= i < |cards| ==> cards[i] == cards[1..][i - 1];
      if r == -1 then -1 else r + 1
  }

  /** How many cards carry `id`. */
  function Occurrences(cards: seq<Card>, id: TaskId): nat
  {
    if cards == [] then 0
    else (if cards[0].id == id then 1 else 0) + Occurrences(cards[1..], id)
  }

  /** `cards.filter(t => t.id !== id)`. */
  function Without(cards: seq<Card>, id: TaskId): (r: seq<Card>)
    ensures forall c :: c in r <==> c in cards && c.id != id
  {
    if cards == [] then []
    else (if cards[0].id == id then [] else [cards[0]]) + Without(cards[1..], id)
  }

  /** The filter works element by element and keeps the order: filtering
      a concatenation is concatenating the filtered parts. */
  lemma {:induction false} WithoutAppend(a: seq<Card>, b: seq<Card>, id: TaskId)
    ensures Without(a + b, id) == Without(a, id) + Without(b, id)
  {
    if a == [] {
      assert a + b == b;
    } else {
      var head := if a[0].id == id then [] else [a[0]];
      calc {
        Without(a + b, id);
        { assert (a + b)[0] == a[0]; }
        head + Without((a + b)[1..], id);
        { assert (a + b)[1..] == a[1..] + b; }
        head + Without(a[1..] + b, id);
        { WithoutAppend(a[1..], b, id); }
        head + (Without(a[1..], id) + Without(b, id));
        (head + Without(a[1..], id)) + Without(b, id);
        Without(a, id) + Without(b, id);
      }
    }
  }

  /** The filter drops exactly the cards carrying `id`. */
  lemma {:induction false} WithoutCount(cards: seq<Card>, id: TaskId)
    ensures |Without(cards, id)| == |cards| - Occurrences(cards, id)
    ensures !Holds(Without(cards, id), id)
  {
    if cards != [] {
      WithoutCount(cards[1..], id);
    }
    var r := Without(cards, id);
    forall i | 0 <= i < |r|
      ensures r[i].id != id
    {
      assert r[i] in r;
    }
  }

  /** A card is held exactly when some card carries its id. */
  lemma {:induction false} OccurrencesHolds(cards: seq<Card>, id: TaskId)
    ensures Occurrences(cards, id) > 0 <==> Holds(cards, id)
  {
    if cards != [] {
      OccurrencesHolds(cards[1..], id);
      if Holds(cards[1..], id) {
        var i :| 0 <= i < |cards[1..]| && cards[1..][i].id == id;
        assert cards[i + 1].id == id;
      }
      if Holds(cards, id) && cards[0].id != id {
        var i :| 0 <= i < |cards| && cards[i].id == id;
        assert cards[1..][i - 1].id == id;
      }
    }
  }

  /** Filtering twice by the same id is filtering once. */
  lemma {:induction false} WithoutIdempotent(cards: seq<Card>, id: TaskId)
    ensures Without(Without(cards, id), id) == Without(cards, id)
  {
    if cards != [] {
      WithoutIdempotent(cards[1..], id);
      if cards[0].id != id {
        var w := Without(cards, id);
        assert w == [cards[0]] + Without(cards[1..], id);
        assert w[0] == cards[0] && w[1..] == Without(cards[1..], id);
        assert Without(w, id) == [w[0]] + Without(w[1..], id);
      } else {
        assert Without(cards, id) == [] + Without(cards[1..], id);
        assert [] + Without(cards[1..], id) == Without(cards[1..], id);
      }
    }
  }

  /** The ids of a list of cards, in order. */
  function Ids(cards: seq<Card>): (r: seq<TaskId>)
    ensures |r| == |cards|
    ensures forall i :: 0 <= i < |cards| ==> r[i] == cards[i].id
  {
    seq(|cards|, i requires 0 <= i < |cards| => cards[i].id)
  }

  // ---------------------------------------------------------------------
  // Socket events

  /** The `taskCreated` updater: `{...prev, [l]: [...(prev[l] || []), task]}`. */
  function OnTaskCreated(m: TasksMap, card: Card): (r: TasksMap)
    ensures r.Keys == m.Keys + {card.listId}
    ensures var before := if card.listId in m then m[card.listId] else [];
            r[card.listId] == before + [card]
    ensures forall l :: l in m && l != card.listId ==> r[l] == m[l]
  {
    m[card.listId := (if card.listId in m then m[card.listId] else []) + [card]]
  }

  /** The `taskDeleted` updater: `{...prev, [l]: prev[l].filter(t => t.id !== id)}`.
      `prev[l]` is `undefined` for a list the page does not hold, and
      `.filter` on it throws: `None`. */
  function OnTaskDeleted(m: TasksMap, taskId: TaskId, listId: ListId): (r: Option<TasksMap>)
    ensures r.None? <==> listId !in m
    ensures r.Some? ==> r.value.Keys == m.Keys
    ensures r.Some? ==> forall c :: c in r.value[listId] <==> c in m[listId] && c.id != taskId
    ensures r.Some? ==> forall l :: l in m && l != listId ==> r.value[l] == m[l]
  {
    if listId !in m then None else Some(m[listId := Without(m[listId], taskId)])
  }

  /** The same delete event applied twice leaves what it left once. */
  lemma DeleteTwiceIsDeleteOnce(m: TasksMap, taskId: TaskId, listId: ListId)
    requires listId in m
    ensures OnTaskDeleted(OnTaskDeleted(m, taskId, listId).value, taskId, listId)
         == OnTaskDeleted(m, taskId, listId)
  {
    WithoutIdempotent(m[listId], taskId);
    var once := m[listId := Without(m[listId], taskId)];
    assert OnTaskDeleted(m, taskId, listId) == Some(once);
    assert once[listId := Without(once[listId], taskId)] == once;
  }

  /** A deletion removes as many cards as carry the id, and no other. */
  lemma DeleteRemovesExactly(m: TasksMap, taskId: TaskId, listId: ListId)
    requires listId in m
    ensures var r := OnTaskDeleted(m, taskId, listId).value;
            |r[listId]| == |m[listId]| - Occurrences(m[listId], taskId) && !Holds(r[listId], taskId)
  {
    WithoutCount(m[listId], taskId);
  }

  /** The page state the socket handlers change. */
  datatype Page = Page(tasksMap: TasksMap, activities: seq<Activity>)

  datatype Event =
    | TaskCreated(card: Card)
    | TaskDeleted(taskId: TaskId, listId: ListId)
    | TaskMoved(taskId: TaskId, sourceListId: ListId, targetListId: ListId, newPosition: int)
    | TaskAssigned(taskId: TaskId, userId: UserId)
    | ActivityNew(activity: Activity)

  /** What a handler does: patch the state, refetch the whole board, or
      throw inside the state updater. */
  datatype Reaction = Patch(page: Page) | Refetch | Crash

  /** The socket handlers of the page. */
  function OnEvent(p: Page, e: Event): (r: Reaction)
    ensures r.Refetch? <==> e.TaskMoved?
    ensures r.Crash? <==> e.TaskDeleted? && e.listId !in p.tasksMap
    ensures e.TaskAssigned? ==> r == Patch(p)
    ensures r.Patch? && !e.ActivityNew? ==> r.page.activities == p.activities
    ensures r.Patch? && e.ActivityNew? ==>
              r.page.tasksMap == p.tasksMap && |r.page.activities| == |p.activities| + 1 &&
              r.page.activities[0] == e.activity && r.page.activities[1..] == p.activities
  {
    match e
    case TaskCreated(card) => Patch(p.(tasksMap := OnTaskCreated(p.tasksMap, card)))
    case TaskDeleted(taskId, listId) =>
      var m := OnTaskDeleted(p.tasksMap, taskId, listId);
      if m.None? then Crash else Patch(p.(tasksMap := m.value))
    case TaskMoved(_, _, _, _) => Refetch
    case TaskAssigned(_, _) => Patch(p)
    case ActivityNew(a) => Patch(p.(activities := [a] + p.activities))
  }

  /** Receiving a `taskDeleted` event twice is the same as receiving it once. */
  lemma DeleteEventIdempotent(p: Page, taskId: TaskId, listId: ListId)
    requires listId in p.tasksMap
    ensures var once := OnEvent(p, TaskDeleted(taskId, listId));
            once.Patch? && OnEvent(once.page, TaskDeleted(taskId, listId)) == once
  {
    DeleteTwiceIsDeleteOnce(p.tasksMap, taskId, listId);
  }

  /** The page after a run of `activity:new` events, oldest first. */
  function ReceiveActivities(p: Page, batch: seq<Activity>): Page
    decreases |batch|
  {
    if batch == [] then p else ReceiveActivities(OnEvent(p, ActivityNew(batch[0])).page, batch[1..])
  }

  /** Activities arrive newest first: after a run of `activity:new` events
      the latest is at the front, and the earlier feed follows unchanged. */
  lemma {:induction false} ActivitiesNewestFirst(p: Page, batch: seq<Activity>)
    ensures var q := ReceiveActivities(p, batch);
            q.tasksMap == p.tasksMap && q.activities == Reverse(batch) + p.activities
    decreases |batch|
  {
    if batch != [] {
      var q := OnEvent(p, ActivityNew(batch[0])).page;
      ActivitiesNewestFirst(q, batch[1..]);
      assert Reverse(batch) == Reverse(batch[1..]) + [batch[0]];
      assert [batch[0]] + p.activities == q.activities;
    }
  }

  // ---------------------------------------------------------------------
  // Which list holds a card

  /** The lists the page holds that contain a card with `id`. */
  function Holding(m: TasksMap, id: TaskId): (r: set<ListId>)
    ensures forall l :: l in r <==> l in m && Holds(m[l], id)
  {
    set l | l in m && Holds(m[l], id)
  }

  /** The first list holding `id` in `for ... in` order. The keys are list
      ids, which JavaScript enumerates in ascending numeric order. */
  function FirstHolding(m: TasksMap, id: TaskId): (r: Option<ListId>)
    ensures r.None? <==> Holding(m, id) == {}
    ensures r.Some? ==> r.value in Holding(m, id) && forall l :: l in Holding(m, id) ==> r.value <= l
  {
    var h := Holding(m, id);
    if h == {} then None else Some(MinOr(h, 0))
  }

  /** The last list holding `id` in `for ... in` order. */
  function LastHolding(m: TasksMap, id: TaskId): (r: Option<ListId>)
    ensures r.None? <==> Holding(m, id) == {}
    ensures r.Some? ==> r.value in Holding(m, id) && forall l :: l in Holding(m, id) ==> l <= r.value
  {
    var h := Holding(m, id);
    if h == {} then None else Some(MaxOr(h, 0))
  }

  /** No list holds `id` when none of the page's lists does. */
  lemma NoHolder(m: TasksMap, id: TaskId)
    requires forall l :: l in m ==> !Holds(m[l], id)
    ensures Holding(m, id) == {} && FirstHolding(m, id).None? && LastHolding(m, id).None?
  {
    var h := Holding(m, id);
    forall l | l in m
      ensures l !in h
    {
    }
    assert h <= m.Keys;
  }

  /** A holding list below every other holding list is the first holder. */
  lemma LeastHolder(m: TasksMap, id: TaskId, least: ListId)
    requires least in m && Holds(m[least], id)
    requires forall l :: l in m && Holds(m[l], id) ==> least <= l
    ensures FirstHolding(m, id) == Some(least)
  {
    assert least in Holding(m, id);
    var first := FirstHolding(m, id).value;
    assert first <= least && least <= first;
  }

  /** A holding list above every other holding list is the last holder. */
  lemma GreatestHolder(m: TasksMap, id: TaskId, top: ListId)
    requires top in m && Holds(m[top], id)
    requires forall l :: l in m && Holds(m[l], id) ==> l <= top
    ensures LastHolding(m, id) == Some(top)
  {
    assert top in Holding(m, id);
    var last := LastHolding(m, id).value;
    assert last <= top && top <= last;
  }

  /** Moving the least key still to visit into the visited set keeps every
      visited key below every key still to visit. */
  lemma SweepStep(rest: set<ListId>, done: set<ListId>, next: ListId)
    requires forall a, b :: a in done && b in rest ==> a < b
    requires next in rest && forall y :: y in rest ==> next <= y
    ensures forall a, b :: a in done + {next} && b in rest - {next} ==> a < b
  {
    forall a, b | a in done + {next} && b in rest - {next}
      ensures a < b
    {
      if a != next {
        assert a in done && b in rest;
      }
    }
  }

  /** `handleDragStart`: walk the lists in key order and stop at the first
      one whose `find` yields the card; the overlay shows that card with the
      list's id copied onto it. */
  method HandleDragStart(m: TasksMap, activeId: TaskId) returns (found: Option<Card>)
    ensures found.None? <==> Holding(m, activeId) == {}
    ensures found.Some? ==>
              var l := FirstHolding(m, activeId).value;
              found.value == m[l][IndexOf(m[l], activeId)].(clientList := Some(l))
  {
    var rest := m.Keys;
    ghost var done: set<ListId> := {};
    while rest != {}
      invariant Swept(m, activeId, rest, done, None)
      decreases |rest|
    {
      var listId := MinOr(rest, 0);
      var i := IndexOf(m[listId], activeId);
      if i >= 0 {
        forall l | l in m && Holds(m[l], activeId)
          ensures listId <= l
        {
          assert l !in done;
        }
        LeastHolder(m, activeId, listId);
        found := Some(m[listId][i].(clientList := Some(listId)));
        return;
      }
      SweptStep(m, activeId, rest, done, None, listId);
      rest := rest - {listId};
      done := done + {listId};
    }
    found := None;
    forall l | l in m
      ensures !Holds(m[l], activeId)
    {
      assert l in done;
    }
    NoHolder(m, activeId);
  }

  /** The `for ... in` loop of `handleDragEnd` that looks for a list whose
      `some` holds the id. It does not break, so the last such list wins. */
  method FindListHolding(m: TasksMap, id: TaskId) returns (r: Option<ListId>)
    ensures r == LastHolding(m, id)
  {
    r := None;
    var rest := m.Keys;
    ghost var done: set<ListId> := {};
    while rest != {}
      invariant Swept(m, id, rest, done, r)
      decreases |rest|
    {
      var listId := MinOr(rest, 0);
      var holds := IndexOf(m[listId], id) >= 0;
      SweptStep(m, id, rest, done, r, listId);
      if holds {
        r := Some(listId);
      }
      rest := rest - {listId};
      done := done + {listId};
    }
    if r.None? {
      NoHolder(m, id);
    } else {
      GreatestHolder(m, id, r.value);
    }
  }

  /** The invariant of the ascending `for ... in` walks over the page's
      lists: the visited keys `done` are below the keys in `rest`, still to
      visit, and `r` is the greatest visited key whose list holds `id`, if
      any (`handleDragStart` stops at its first hit, so there it is none). */
  ghost predicate Swept(m: TasksMap, id: TaskId, rest: set<ListId>, done: set<ListId>, r: Option<ListId>)
  {
    && rest + done == m.Keys && rest !! done
    && (forall a, b :: a in done && b in rest ==> a < b)
    && (r.None? ==> forall l :: l in done ==> !Holds(m[l], id))
    && (r.Some? ==> r.value in done && Holds(m[r.value], id))
    && (r.Some? ==> forall l :: l in done && Holds(m[l], id) ==> l <= r.value)
  }

  /** Visiting the least key still to visit keeps `Swept`. */
  lemma SweptStep(m: TasksMap, id: TaskId, rest: set<ListId>, done: set<ListId>, r: Option<ListId>, next: ListId)
    requires Swept(m, id, rest, done, r)
    requires next in rest && forall y :: y in rest ==> next <= y
    ensures var r' := if Holds(m[next], id) then Some(next) else r;
            Swept(m, id, rest - {next}, done + {next}, r')
  {
    SweepStep(rest, done, next);
  }

  // ---------------------------------------------------------------------
  // Dropping a card

  /** What the drag was released over: a list container (droppable id
      `list-<id>`) or another card. */
  datatype Over = OverList(listId: ListId) | OverTask(taskId: TaskId)

  /** The body of `PATCH /tasks/:id/move`. */
  datatype MoveRequest = MoveRequest(taskId: TaskId, targetListId: ListId, newPosition: int)

  /** `s` with the element at index `i` removed. */
  function RemoveAt<T>(s: seq<T>, i: nat): (r: seq<T>)
    requires i < |s|
    ensures |r| == |s| - 1
    ensures forall j :: 0 <= j < i ==> r[j] == s[j]
    ensures forall j :: i <= j < |r| ==> r[j] == s[j + 1]
  {
    s[..i] + s[i + 1..]
  }

  /** `[...cards.slice(0, k), card, ...cards.slice(k)]`. */
  function SpliceIn(cards: seq<Card>, k: nat, card: Card): (r: seq<Card>)
    requires k <= |cards|
    ensures |r| == |cards| + 1 && r[k] == card
    ensures forall i :: 0 <= i < k ==> r[i] == cards[i]
    ensures forall i :: k < i < |r| ==> r[i] == cards[i - 1]
    ensures multiset(r) == multiset(cards) + multiset{card}
  {
    assert cards == cards[..k] + cards[k..];
    cards[..k] + [card] + cards[k..]
  }

  /** On ids, the client's splice is the server's `splice(k, 0, id)`. */
  lemma SpliceInIds(cards: seq<Card>, k: nat, card: Card)
    requires k <= |cards|
    ensures Ids(SpliceIn(cards, k, card)) == Insert(Ids(cards), k, card.id)
  {
    var ids := Ids(cards);
    var a := Ids(SpliceIn(cards, k, card));
    var b := Insert(ids, k, card.id);
    assert |a| == |b|;
    forall i | 0 <= i < k
      ensures a[i] == b[i]
    {
      assert a[i] == cards[i].id == ids[i];
    }
    forall i | k < i < |a|
      ensures a[i] == b[i]
    {
      assert a[i] == cards[i - 1].id == ids[i - 1];
    }
    assert a[k] == b[k];
  }

  /** dnd-kit's `arrayMove(array, from, to)` for indices inside the array:
      take the element out at `from` and splice it back in at `to`. */
  function ArrayMove(cards: seq<Card>, from: nat, to: nat): (r: seq<Card>)
    requires from < |cards| && to < |cards|
    ensures |r| == |cards| && r[to] == cards[from]
  {
    SpliceIn(RemoveAt(cards, from), to, cards[from])
  }

  /** `arrayMove` is a permutation. */
  lemma ArrayMovePermutes(cards: seq<Card>, from: nat, to: nat)
    requires from < |cards| && to < |cards|
    ensures multiset(ArrayMove(cards, from, to)) == multiset(cards)
  {
    assert cards == cards[..from] + [cards[from]] + cards[from + 1..];
    assert multiset(RemoveAt(cards, from)) + multiset{cards[from]} == multiset(cards);
  }

  /** The optimistic state after a drop, and the move request sent (if
      any). The state is left as it was, and nothing is sent, when there is
      no drop target, when the dragged or the hovered card is in no list,
      or when a cross-list target list is not on the page (`targetTasks` is
      `undefined` and the splice throws before `setTasksMap`). */
  function Drop(m: TasksMap, activeId: TaskId, over: Option<Over>): (r: (TasksMap, Option<MoveRequest>))
  {
    if !Resolved(m, activeId, over) then (m, None)
    else
      (Rearrange(m, activeId, LastHolding(m, activeId).value, DropTarget(m, over.value).value,
                 DropIndex(m, over.value)),
       Some(MoveRequest(activeId, DropTarget(m, over.value).value, DropIndex(m, over.value) + 1)))
  }

  /** The list a drop lands in: the hovered container, or the list holding
      the hovered card. */
  function DropTarget(m: TasksMap, over: Over): (r: Option<ListId>)
    ensures over.OverList? ==> r == Some(over.listId)
    ensures over.OverTask? ==> (r.None? <==> forall l :: l in m ==> !Holds(m[l], over.taskId))
    ensures over.OverTask? && r.Some? ==>
              && r.value in m && Holds(m[r.value], over.taskId)
              && forall l :: l in m && Holds(m[l], over.taskId) ==> l <= r.value
  {
    match over
    case OverList(l) => Some(l)
    case OverTask(t) => LastHolding(m, t)
  }

  /** A drop goes ahead when there is a target, the dragged card and the
      target list are found, and a cross-list target is on the page. */
  predicate Resolved(m: TasksMap, activeId: TaskId, over: Option<Over>)
  {
    && over.Some?
    && LastHolding(m, activeId).Some?
    && DropTarget(m, over.value).Some?
    && (LastHolding(m, activeId) == DropTarget(m, over.value) || DropTarget(m, over.value).value in m)
  }

  /** The index the card is dropped at: 0 on a container, else the hovered
      card's index in the target list. */
  function DropIndex(m: TasksMap, over: Over): (r: int)
    requires DropTarget(m, over).Some? && DropTarget(m, over).value in m
    ensures over.OverList? ==> r == 0
    ensures over.OverTask? ==> 0 <= r < |m[DropTarget(m, over).value]| &&
                               m[DropTarget(m, over).value][r].id == over.taskId
  {
    if over.OverList? then 0 else IndexOf(m[DropTarget(m, over).value], over.taskId)
  }

  /** The map after moving the card `activeId` out of list `src` to index
      `newIndex` of list `tgt`: `arrayMove` within one list; across lists the
      source filtered and the card, relabelled, spliced into the target. */
  function Rearrange(m: TasksMap, activeId: TaskId, src: ListId, tgt: ListId, newIndex: int): (r: TasksMap)
    requires src in m && tgt in m && Holds(m[src], activeId)
    requires 0 <= newIndex && (if src == tgt then newIndex < |m[src]| else newIndex <= |m[tgt]|)
    ensures r.Keys == m.Keys
    ensures forall k :: k in m && k != src && k != tgt ==> r[k] == m[k]
  {
    var s := m[src];
    var oldIndex := IndexOf(s, activeId);
    if src == tgt then m[src := ArrayMove(s, oldIndex, newIndex)]
    else m[src := Without(s, activeId)][tgt := SpliceIn(m[tgt], newIndex, s[oldIndex].(clientList := Some(tgt)))]
  }

  /** `handleDragEnd`: find the source and target lists, rebuild the map
      and name the request, as `Drop` describes. */
  method HandleDragEnd(m: TasksMap, activeId: TaskId, over: Option<Over>)
    returns (updated: TasksMap, request: Option<MoveRequest>)
    ensures (updated, request) == Drop(m, activeId, over)
  {
    if over.None? {
      return m, None;
    }
    var sourceListId := FindListHolding(m, activeId);
    var targetListId: Option<ListId>;
    match over.value {
      case OverList(l) => targetListId := Some(l);
      case OverTask(t) => targetListId := FindListHolding(m, t);
    }
    assert targetListId == DropTarget(m, over.value);
    if sourceListId.None? || targetListId.None? {
      return m, None;
    }
    var source, target := sourceListId.value, targetListId.value;
    if source != target && target !in m {
      return m, None;
    }
    var newIndex;
    if over.value.OverList? {
      newIndex := 0;
    } else {
      newIndex := IndexOf(m[target], over.value.taskId);
    }
    assert Resolved(m, activeId, over) && newIndex == DropIndex(m, over.value);
    assert Drop(m, activeId, over).1 == Some(MoveRequest(activeId, target, newIndex + 1));
    assert Drop(m, activeId, over).0 == Rearrange(m, activeId, source, target, newIndex);
    updated := MoveCard(m, activeId, source, target, newIndex);
    request := Some(MoveRequest(activeId, target, newIndex + 1));
  }

  /** The statements of `handleDragEnd` that build the map handed to
      `setTasksMap`. They are kept apart so that the handler's proof stays
      small; what they compute is `Rearrange`. */
  method MoveCard(m: TasksMap, activeId: TaskId, source: ListId, target: ListId, newIndex: int)
    returns (updated: TasksMap)
    requires source in m && target in m && Holds(m[source], activeId)
    requires 0 <= newIndex && (if source == target then newIndex < |m[source]| else newIndex <= |m[target]|)
    ensures updated == Rearrange(m, activeId, source, target, newIndex)
  {
    var sourceTasks := m[source];
    var oldIndex := IndexOf(sourceTasks, activeId);
    if source == target {
      updated := m[source := ArrayMove(sourceTasks, oldIndex, newIndex)];
    } else {
      var movingTask := sourceTasks[oldIndex].(clientList := Some(target));
      updated := m[source := Without(sourceTasks, activeId)];
      updated := updated[target := SpliceIn(m[target], newIndex, movingTask)];
    }
  }

  /** A drop changes the page and sends a request exactly when there is a
      target, both cards are found, and the target list is on the page. */
  lemma DropSendsIffResolved(m: TasksMap, activeId: TaskId, over: Option<Over>)
    ensures var (updated, request) := Drop(m, activeId, over);
            var tgt := if over.None? then None
                       else if over.value.OverList? then Some(over.value.listId)
                       else LastHolding(m, over.value.taskId);
            (request.Some? <==> over.Some? && Holding(m, activeId) != {} && tgt.Some? && tgt.value in m) &&
            (request.None? ==> updated == m)
  {
  }

  /** Every request names the dragged card, asks for a position of at least
      1, and asks for position 1 of the list when dropped on a container. */
  lemma DropRequestPosition(m: TasksMap, activeId: TaskId, over: Option<Over>)
    ensures var request := Drop(m, activeId, over).1;
            request.Some? ==>
              request.value.taskId == activeId && request.value.newPosition >= 1 &&
              (over.value.OverList? ==>
                 request.value.newPosition == 1 && request.value.targetListId == over.value.listId) &&
              (over.value.OverTask? ==>
                 var t := request.value.targetListId;
                 t in m && request.value.newPosition == IndexOf(m[t], over.value.taskId) + 1)
  {
  }

  /** A drop that sends a request rearranges the map from the list
      holding the card to the one the request names, at index
      `newPosition - 1`. */
  lemma DropIsRearrange(m: TasksMap, activeId: TaskId, over: Option<Over>)
    requires Drop(m, activeId, over).1.Some?
    ensures Resolved(m, activeId, over)
    ensures LastHolding(m, activeId).value in m
    ensures Holds(m[LastHolding(m, activeId).value], activeId)
    ensures DropTarget(m, over.value).value in m
    ensures Drop(m, activeId, over).1.value.targetListId == DropTarget(m, over.value).value
    ensures Drop(m, activeId, over).1.value.newPosition == DropIndex(m, over.value) + 1
    ensures 0 <= DropIndex(m, over.value)
    ensures var src := LastHolding(m, activeId).value;
            var tgt := DropTarget(m, over.value).value;
            if src == tgt then DropIndex(m, over.value) < |m[tgt]| else DropIndex(m, over.value) <= |m[tgt]|
    ensures Drop(m, activeId, over).0 ==
              Rearrange(m, activeId, LastHolding(m, activeId).value, DropTarget(m, over.value).value, DropIndex(m, over.value))
  {
  }

  /** A drop within one list reorders that list and touches no other. */
  lemma SameListDropPermutes(m: TasksMap, activeId: TaskId, over: Option<Over>)
    requires Drop(m, activeId, over).1.Some?
    requires LastHolding(m, activeId) == Some(Drop(m, activeId, over).1.value.targetListId)
    ensures var (updated, request) := Drop(m, activeId, over);
            var l := request.value.targetListId;
            updated.Keys == m.Keys &&
            |updated[l]| == |m[l]| && multiset(updated[l]) == multiset(m[l]) &&
            forall k :: k in m && k != l ==> updated[k] == m[k]
  {
    DropIsRearrange(m, activeId, over);
    var request := Drop(m, activeId, over).1.value;
    var s := m[request.targetListId];
    ArrayMovePermutes(s, IndexOf(s, activeId), request.newPosition - 1);
  }

  /** A drop across lists takes the card out of the source (every copy of
      its id) and puts one copy into the target, so the two lists together
      keep their count when the id appeared once. */
  lemma CrossListDropKeepsCount(m: TasksMap, activeId: TaskId, over: Option<Over>)
    requires Drop(m, activeId, over).1.Some?
    requires LastHolding(m, activeId) != Some(Drop(m, activeId, over).1.value.targetListId)
    ensures var (updated, request) := Drop(m, activeId, over);
            var src := LastHolding(m, activeId).value;
            var tgt := request.value.targetListId;
            src != tgt && updated.Keys == m.Keys && Occurrences(m[src], activeId) >= 1 &&
            |updated[src]| + |updated[tgt]| == |m[src]| + |m[tgt]| + 1 - Occurrences(m[src], activeId) &&
            (Occurrences(m[src], activeId) == 1 ==> |updated[src]| + |updated[tgt]| == |m[src]| + |m[tgt]|) &&
            !Holds(updated[src], activeId) &&
            forall k :: k in m && k != src && k != tgt ==> updated[k] == m[k]
  {
    DropIsRearrange(m, activeId, over);
    var src := LastHolding(m, activeId).value;
    WithoutCount(m[src], activeId);
    OccurrencesHolds(m[src], activeId);
  }

  /** The optimistic order is the one the server computes. Across lists, the
      target becomes what `moveTask` splices for the request's position;
      within a list it is what the corrected `moveTask` (the list read once,
      without the moved card) splices. */
  lemma DropAgreesWithServer(m: TasksMap, activeId: TaskId, over: Option<Over>)
    requires Drop(m, activeId, over).1.Some?
    ensures var (updated, request) := Drop(m, activeId, over);
            var src := LastHolding(m, activeId).value;
            var tgt := request.value.targetListId;
            var s := m[src];
            if src == tgt then
              Ids(updated[tgt]) ==
                Insert(Ids(RemoveAt(s, IndexOf(s, activeId))),
                       InsertIndex(request.value.newPosition, |s| - 1), activeId)
            else
              Ids(updated[tgt]) ==
                Insert(Ids(m[tgt]), InsertIndex(request.value.newPosition, |m[tgt]|), activeId)
  {
    DropIsRearrange(m, activeId, over);
    var (updated, request) := Drop(m, activeId, over);
    var src := LastHolding(m, activeId).value;
    var tgt := request.value.targetListId;
    var s := m[src];
    var oldIndex := IndexOf(s, activeId);
    var newIndex := request.value.newPosition - 1;
    if src == tgt {
      var rest := RemoveAt(s, oldIndex);
      assert InsertIndex(request.value.newPosition, |rest|) == newIndex;
      SpliceInIds(rest, newIndex, s[oldIndex]);
      assert updated[tgt] == SpliceIn(rest, newIndex, s[oldIndex]);
    } else {
      var card := s[oldIndex].(clientList := Some(tgt));
      assert InsertIndex(request.value.newPosition, |m[tgt]|) == newIndex;
      SpliceInIds(m[tgt], newIndex, card);
      assert updated[tgt] == SpliceIn(m[tgt], newIndex, card);
    }
  }

  // ---------------------------------------------------------------------
  // Fetching and the page's own requests

  /** The loop of `fetchBoardData` that builds `tasksObj`, one
      `/tasks/list/:id` request per fetched list. `responses` holds the
      answer for each list whose request succeeds; the first failure
      abandons the refetch (`catch`), and the page keeps its old map. */
  method FetchTasksMap(lists: seq<ListId>, responses: map<ListId, seq<Card>>)
    returns (r: Option<TasksMap>)
    ensures r.Some? <==> forall i :: 0 <= i < |lists| ==> lists[i] in responses
    ensures r.Some? ==> r.value.Keys == set i | 0 <= i < |lists| :: lists[i]
    ensures r.Some? ==> forall l :: l in r.value ==> r.value[l] == responses[l]
  {
    var tasksObj: TasksMap := map[];
    var i := 0;
    while i < |lists|
      invariant 0 <= i <= |lists|
      invariant forall j :: 0 <= j < i ==> lists[j] in responses
      invariant tasksObj.Keys == set j | 0 <= j < i :: lists[j]
      invariant forall l :: l in tasksObj ==> tasksObj[l] == responses[l]
    {
      if lists[i] !in responses {
        return None;
      }
      tasksObj := tasksObj[lists[i] := responses[lists[i]]];
      i := i + 1;
    }
    return Some(tasksObj);
  }

  /** The page after its own `createList` request answers with the new
      list: the list is appended and given an empty entry. */
  function ListCreated(lists: seq<ListId>, m: TasksMap, id: ListId): (r: (seq<ListId>, TasksMap))
    ensures r.0 == lists + [id]
    ensures r.1.Keys == m.Keys + {id} && r.1[id] == []
    ensures forall l :: l in m && l != id ==> r.1[l] == m[l]
  {
    (lists + [id], m[id := []])
  }

  /** `deleteList` after the user confirms: the list leaves `lists`
      before the request is sent; `tasksMap` keeps its entry. */
  function ListDeleted(lists: seq<ListId>, id: ListId): (r: seq<ListId>)
    ensures forall l :: l in r <==> l in lists && l != id
    ensures |r| <= |lists|
  {
    if lists == [] then []
    else (if lists[0] == id then [] else [lists[0]]) + ListDeleted(lists[1..], id)
  }

  /** Deleting a list just created gives back the lists as they were, while
      the map keeps an empty entry for it. */
  lemma {:induction false} CreateThenDeleteList(lists: seq<ListId>, m: TasksMap, id: ListId)
    requires id !in lists
    ensures var (lists', m') := ListCreated(lists, m, id);
            ListDeleted(lists', id) == lists && m' == m[id := []]
  {
    ListDeletedAbsent(lists, id);
    ListDeletedAppend(lists, id);
  }

  lemma {:induction false} ListDeletedAbsent(lists: seq<ListId>, id: ListId)
    requires id !in lists
    ensures ListDeleted(lists, id) == lists
  {
    if lists != [] {
      ListDeletedAbsent(lists[1..], id);
      assert lists == [lists[0]] + lists[1..];
    }
  }

  lemma {:induction false} ListDeletedAppend(lists: seq<ListId>, id: ListId)
    ensures ListDeleted(lists + [id], id) == ListDeleted(lists, id)
  {
    if lists == [] {
      assert ListDeleted([id], id) == [] + ListDeleted([], id);
    } else {
      assert (lists + [id])[1..] == lists[1..] + [id];
      ListDeletedAppend(lists[1..], id);
    }
  }
}
