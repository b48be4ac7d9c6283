/** The ordering arithmetic behind task and list positions: the splice,
    clamp, `ORDER BY position` read and `COALESCE(MAX(position), 0) + 1`
    helpers that `taskController.js` and `listController.js` use inline.

    A positions map sends the id of each row of one list (or of one board) to
    its `position` column. This module says what an `ORDER BY position ASC`
    read of such rows may return, what it means for positions to be dense
    (exactly 1..n, no duplicates), how a move clamps its
    insertion index and splices the moved id in, and which position a newly
    created row receives. */
module Positions {
  import opened Common

  predicate NoDup(s: seq<int>)
  {
    forall i, j :: 0 <= i < j < |s| ==> s[i] != s[j]
  }

  /** The 0-based insertion index of a move:
      `Math.max(0, Math.min(newPosition - 1, len))`. A position below 1 goes
      to the front, one beyond the end goes to the back. */
  function InsertIndex(newPosition: int, len: nat): (k: nat)
    ensures k <= len
    ensures newPosition < 1 ==> k == 0
    ensures newPosition > len + 1 ==> k == len
    ensures 1 <= newPosition <= len + 1 ==> k == newPosition - 1
  {
    Max(0, Min(newPosition - 1, len))
  }

  /** `ids.splice(k, 0, x)`: `x` inserted before index `k`. */
  function Insert(s: seq<int>, k: nat, x: int): (r: seq<int>)
    requires k <= |s|
    ensures |r| == |s| + 1 && r[k] == x
    ensures forall i :: 0 <= i < k ==> r[i] == s[i]
    ensures forall i :: k < i < |r| ==> r[i] == s[i - 1]
    ensures multiset(r) == multiset(s) + multiset{x}
    ensures forall y :: y in r <==> y in s || y == x
  {
    assert s == s[..k] + s[k..];
    s[..k] + [x] + s[k..]
  }

  /** Splicing a fresh id into a duplicate-free sequence keeps it duplicate-free. */
  lemma InsertNoDup(s: seq<int>, k: nat, x: int)
    requires k <= |s| && NoDup(s) && x !in s
    ensures NoDup(Insert(s, k, x))
  {
    var r := Insert(s, k, x);
    forall i, j | 0 <= i < j < |r|
      ensures r[i] != r[j]
    {
      if i == k || j == k {
        assert r[i] in s || r[j] in s;
      }
    }
  }

  /** `ids` is a possible result of `SELECT id ... ORDER BY position ASC`
      over the rows of `pos`: every row exactly once, positions
      non-decreasing. Rows of equal position may come in either order, as in
      SQL. */
  ghost predicate OrderedRead(pos: map<int, int>, ids: seq<int>)
  {
    && NoDup(ids)
    && (forall i :: 0 <= i < |ids| ==> ids[i] in pos)
    && (forall id :: id in pos ==> id in ids)
    && (forall i, j :: 0 <= i < j < |ids| ==> pos[ids[i]] <= pos[ids[j]])
  }

  /** The rows of `pos` hold the positions 1..n in the order `order`: the
      state that a rewrite loop `position = i + 1` leaves behind. */
  ghost predicate Ranked(pos: map<int, int>, order: seq<int>)
  {
    && NoDup(order)
    && (forall id :: id in pos <==> id in order)
    && (forall i :: 0 <= i < |order| ==> order[i] in pos && pos[order[i]] == i + 1)
  }

  /** A finite non-empty set of rows has a row of least position. */
  lemma {:induction false} LeastPositionExists(pos: map<int, int>, s: set<int>)
    requires s != {} && s <= pos.Keys
    ensures exists m :: m in s && forall y :: y in s ==> pos[m] <= pos[y]
    decreases |s|
  {
    NonEmptyHasElement(s);
    var x :| x in s;
    var rest := s - {x};
    if rest == {} {
      forall y | y in s
        ensures pos[x] <= pos[y]
      {
        assert y in rest || y == x;
      }
    } else {
      LeastPositionExists(pos, rest);
      var m :| m in rest && forall y :: y in rest ==> pos[m] <= pos[y];
      var least := if pos[x] < pos[m] then x else m;
      assert least in s;
      forall y | y in s
        ensures pos[least] <= pos[y]
      {
        assert y in rest || y == x;
      }
    }
  }

  /** The database's `ORDER BY position ASC`: repeatedly takes a row of least
      position among those not yet returned. Which of several rows of equal
      position comes first is left open, as SQL leaves it. */
  method SelectOrdered(pos: map<int, int>) returns (ids: seq<int>)
    ensures OrderedRead(pos, ids)
  {
    ids := [];
    var rest := pos.Keys;
    while rest != {}
      invariant rest <= pos.Keys
      invariant forall id :: id in pos ==> (id in ids <==> id !in rest)
      invariant NoDup(ids)
      invariant forall i :: 0 <= i < |ids| ==> ids[i] in pos
      invariant forall i, j :: 0 <= i < j < |ids| ==> pos[ids[i]] <= pos[ids[j]]
      invariant forall i, y :: 0 <= i < |ids| && y in rest ==> pos[ids[i]] <= pos[y]
      decreases |rest|
    {
      LeastPositionExists(pos, rest);
      var m :| m in rest && forall y :: y in rest ==> pos[m] <= pos[y];
      ids := ids + [m];
      rest := rest - {m};
    }
  }

  /** The elements of a duplicate-free sequence form a set of its length. */
  lemma {:induction false} NoDupCard(s: seq<int>)
    requires NoDup(s)
    ensures |set x | x in s| == |s|
  {
    if s != [] {
      var init := s[..|s| - 1];
      var last := s[|s| - 1];
      assert NoDup(init);
      NoDupCard(init);
      assert (set x | x in s) == (set x | x in init) + {last} by {
        assert s == init + [last];
      }
      assert last !in (set x | x in init);
    }
  }

  /** Positions written by a rewrite loop are dense (exactly 1..n, no duplicates): there
      are as many rows as entries in `order`, each position lies in 1..n,
      and no two rows share a position, so the n positions are exactly 1..n. */
  lemma RankedIsDense(pos: map<int, int>, order: seq<int>)
    requires Ranked(pos, order)
    ensures |pos| == |order|
    ensures forall id :: id in pos ==> 1 <= pos[id] <= |pos|
    ensures forall a, b :: a in pos && b in pos && a != b ==> pos[a] != pos[b]
  {
    NoDupCard(order);
    forall x
      ensures x in pos.Keys <==> x in (set y | y in order)
    {
    }
    assert pos.Keys == set y | y in order;
    assert |pos| == |order|;
    forall id | id in pos
      ensures 1 <= pos[id] <= |pos|
    {
      var i :| 0 <= i < |order| && order[i] == id;
    }
  }

  /** When the positions are already 1..n, the read is forced: every
      `ORDER BY position` result of a ranked list is its ranking. */
  lemma RankedReadIsUnique(pos: map<int, int>, order: seq<int>, ids: seq<int>)
    requires Ranked(pos, order) && OrderedRead(pos, ids)
    ensures ids == order
  {
    NoDupCard(order);
    NoDupCard(ids);
    assert (set x | x in order) == (set x | x in ids);
    RankedIsDense(pos, order);
    var n := |ids|;
    // The read's positions strictly increase and lie in 1..n, so the i-th is i + 1.
    assert forall i, j :: 0 <= i < j < n ==> pos[ids[i]] < pos[ids[j]];
    forall i | 0 <= i < n
      ensures pos[ids[i]] == i + 1
    {
      LowerBound(pos, ids, i);
      UpperBound(pos, ids, i);
    }
    forall i | 0 <= i < n
      ensures ids[i] == order[i]
    {
      assert pos[ids[i]] == pos[order[i]];
    }
  }

  lemma {:induction false} LowerBound(pos: map<int, int>, ids: seq<int>, i: nat)
    requires i < |ids|
    requires forall k :: 0 <= k < |ids| ==> ids[k] in pos && 1 <= pos[ids[k]]
    requires forall a, b :: 0 <= a < b < |ids| ==> pos[ids[a]] < pos[ids[b]]
    ensures pos[ids[i]] >= i + 1
  {
    if i > 0 {
      LowerBound(pos, ids, i - 1);
    }
  }

  lemma {:induction false} UpperBound(pos: map<int, int>, ids: seq<int>, i: nat)
    requires i < |ids|
    requires forall k :: 0 <= k < |ids| ==> ids[k] in pos && pos[ids[k]] <= |ids|
    requires forall a, b :: 0 <= a < b < |ids| ==> pos[ids[a]] < pos[ids[b]]
    ensures pos[ids[i]] <= i + 1
    decreases |ids| - i
  {
    if i < |ids| - 1 {
      UpperBound(pos, ids, i + 1);
    }
  }

  /** A row whose position is strictly greater than every other row's comes
      last in every ordered read. */
  lemma GreatestComesLast(pos: map<int, int>, ids: seq<int>, id: int)
    requires OrderedRead(pos, ids) && id in pos
    requires forall x :: x in pos && x != id ==> pos[x] < pos[id]
    ensures |ids| > 0 && ids[|ids| - 1] == id
  {
    var j :| 0 <= j < |ids| && ids[j] == id;
    var last := |ids| - 1;
    forall k | 0 <= k < |ids|
      ensures pos[ids[k]] <= pos[ids[last]]
    {
    }
    assert pos[id] <= pos[ids[last]];
  }

  /** Removing the row at index `i` of an ordered read leaves an ordered
      read of the remaining rows: deletion keeps the relative order. */
  lemma OrderedReadWithout(pos: map<int, int>, ids: seq<int>, i: nat)
    requires OrderedRead(pos, ids) && i < |ids|
    ensures OrderedRead(pos - {ids[i]}, ids[..i] + ids[i + 1..])
  {
    var rest := ids[..i] + ids[i + 1..];
    var pos' := pos - {ids[i]};
    forall j | 0 <= j < |rest|
      ensures rest[j] == ids[if j < i then j else j + 1]
      ensures rest[j] in pos'
    {
    }
    forall a, b | 0 <= a < b < |rest|
      ensures rest[a] != rest[b] && pos'[rest[a]] <= pos'[rest[b]]
    {
      var a' := if a < i then a else a + 1;
      var b' := if b < i then b else b + 1;
      assert a' < b';
    }
    forall id | id in pos'
      ensures id in rest
    {
      var j :| 0 <= j < |ids| && ids[j] == id;
      if j < i {
        assert rest[j] == id;
      } else {
        assert rest[j - 1] == id;
      }
    }
  }

  /** Removing the row at index `i` of a ranked list keeps the others in
      order, but unless it was the last row the positions are no longer
      1..n-1. */
  lemma RankedWithout(pos: map<int, int>, order: seq<int>, i: nat)
    requires Ranked(pos, order) && i < |order|
    ensures OrderedRead(pos - {order[i]}, order[..i] + order[i + 1..])
    ensures i + 1 < |order| ==> !Ranked(pos - {order[i]}, order[..i] + order[i + 1..])
  {
    RankedIsOrderedRead(pos, order);
    OrderedReadWithout(pos, order, i);
    if i + 1 < |order| {
      PositionsWithout(pos, order, i);
      var rest := order[..i] + order[i + 1..];
      assert (pos - {order[i]})[rest[|rest| - 1]] == |rest| + 1;
    }
  }

  /** Positions 1..n in `order` make `order` an ordered read. */
  lemma RankedIsOrderedRead(pos: map<int, int>, order: seq<int>)
    requires Ranked(pos, order)
    ensures OrderedRead(pos, order)
  {
  }

  lemma PositionsWithout(pos: map<int, int>, order: seq<int>, i: nat)
    requires Ranked(pos, order) && i < |order|
    ensures var rest := order[..i] + order[i + 1..];
            && |rest| == |order| - 1
            && forall j :: 0 <= j < |rest| ==>
                 rest[j] == (if j < i then order[j] else order[j + 1])
                 && rest[j] in pos - {order[i]}
                 && (pos - {order[i]})[rest[j]] == if j < i then j + 1 else j + 2
  {
    var rest := order[..i] + order[i + 1..];
    var pos' := pos - {order[i]};
    forall j | 0 <= j < |rest|
      ensures rest[j] == (if j < i then order[j] else order[j + 1])
      ensures rest[j] in pos' && pos'[rest[j]] == if j < i then j + 1 else j + 2
    {
      var o := if j < i then j else j + 1;
      assert rest[j] == order[o] && o != i;
    }
  }

  /** The position a created row receives:
      `COALESCE(MAX(position), 0) + 1` over the rows of `pos`. */
  function NextPosition(pos: map<int, int>): (p: int)
    ensures forall id :: id in pos ==> pos[id] < p
    ensures pos == map[] ==> p == 1
    ensures pos != map[] ==> exists id :: id in pos && pos[id] == p - 1
  {
    var positions := set id | id in pos :: pos[id];
    var m := MaxOr(positions, 0);
    assert forall id :: id in pos ==> pos[id] in positions;
    m + 1
  }

  /** Appending at `NextPosition` keeps a ranked list ranked: the new row
      takes position n + 1. */
  lemma AppendKeepsRanked(pos: map<int, int>, order: seq<int>, newId: int)
    requires Ranked(pos, order) && newId !in pos
    ensures NextPosition(pos) == |order| + 1
    ensures Ranked(pos[newId := NextPosition(pos)], order + [newId])
  {
    RankedIsDense(pos, order);
    var p := NextPosition(pos);
    if order == [] {
      assert pos == map[];
    } else {
      assert pos[order[|order| - 1]] == |order|;
      var id :| id in pos && pos[id] == p - 1;
    }
  }
}
