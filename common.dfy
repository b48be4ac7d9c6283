/** Vocabulary shared by the backend handlers and the board page: optional
    request fields, JavaScript truthiness of those fields, the HTTP status
    codes the handlers answer with, and two facts about finite sets of ints. */
module Common {

  datatype Option<T> = None | Some(value: T)

  /** `!x` is false exactly for a present, non-zero number (absent, `null`
      and `0` are all falsy in JavaScript). */
  predicate Truthy(x: Option<int>)
  {
    x.Some? && x.value != 0
  }

  /** `!x` is false exactly for a present, non-empty string. */
  predicate TruthyText(x: Option<string>)
  {
    x.Some? && x.value != ""
  }

  /** `x || null` on an optional text field: a falsy field is stored as SQL NULL. */
  function OrNull(x: Option<string>): (r: Option<string>)
    ensures r.Some? <==> TruthyText(x)
    ensures r.Some? ==> r == x
  {
    if TruthyText(x) then x else None
  }

  /** `x || fallback` on an optional text field. */
  function OrElse(x: Option<string>, fallback: string): (r: string)
    ensures TruthyText(x) ==> r == x.value
    ensures !TruthyText(x) ==> r == fallback
  {
    if TruthyText(x) then x.value else fallback
  }

  // The status codes the handlers send. A handler that calls `next(error)`
  // falls through to Express's default error handler, which answers 500:
  // src/index.js installs no error middleware of its own.
  const HTTP_OK: int := 200
  const HTTP_CREATED: int := 201
  const HTTP_BAD_REQUEST: int := 400
  const HTTP_FORBIDDEN: int := 403
  const HTTP_NOT_FOUND: int := 404
  const HTTP_SERVER_ERROR: int := 500

  function Min(a: int, b: int): int { if a <= b then a else b }
  function Max(a: int, b: int): int { if a <= b then b else a }

  /** A non-empty set has an element. */
  lemma NonEmptyHasElement(s: set<int>)
    requires s != {}
    ensures exists x :: x in s
  {
    if forall x :: x !in s {
      assert false;
    }
  }

  /** A finite non-empty set of ints has a least element. */
  lemma {:induction false} LeastExists(s: set<int>)
    requires s != {}
    ensures exists m :: m in s && forall y :: y in s ==> m <= y
    decreases |s|
  {
    NonEmptyHasElement(s);
    var x :| x in s;
    var rest := s - {x};
    if rest == {} {
      forall y | y in s
        ensures x <= y
      {
        assert y in rest || y == x;
      }
    } else {
      LeastExists(rest);
      var m :| m in rest && forall y :: y in rest ==> m <= y;
      var least := if x < m then x else m;
      forall y | y in s
        ensures least <= y
      {
        assert y in rest || y == x;
      }
    }
  }

  /** A finite non-empty set of ints has a greatest element. */
  lemma {:induction false} GreatestExists(s: set<int>)
    requires s != {}
    ensures exists m :: m in s && forall y :: y in s ==> y <= m
    decreases |s|
  {
    NonEmptyHasElement(s);
    var x :| x in s;
    var rest := s - {x};
    if rest == {} {
      forall y | y in s
        ensures y <= x
      {
        assert y in rest || y == x;
      }
    } else {
      GreatestExists(rest);
      var m :| m in rest && forall y :: y in rest ==> y <= m;
      var greatest := if m < x then x else m;
      forall y | y in s
        ensures y <= greatest
      {
        assert y in rest || y == x;
      }
    }
  }

  /** `s` back to front. */
  function Reverse<T>(s: seq<T>): (r: seq<T>)
    ensures |r| == |s|
    ensures forall i :: 0 <= i < |s| ==> r[i] == s[|s| - 1 - i]
  {
    if s == [] then [] else Reverse(s[1..]) + [s[0]]
  }

  /** The least element of a finite set, or `dflt` when it is empty. */
  function MinOr(s: set<int>, dflt: int): (m: int)
    ensures s == {} ==> m == dflt
    ensures s != {} ==> m in s && forall y :: y in s ==> m <= y
  {
    if s == {} then dflt
    else
      LeastExists(s);
      var m :| m in s && forall y :: y in s ==> m <= y;
      m
  }

  /** The greatest element of a finite set, or `dflt` when it is empty:
      SQL's `COALESCE(MAX(col), dflt)`. */
  function MaxOr(s: set<int>, dflt: int): (m: int)
    ensures s == {} ==> m == dflt
    ensures s != {} ==> m in s && forall y :: y in s ==> y <= m
  {
    if s == {} then dflt
    else
      GreatestExists(s);
      var m :| m in s && forall y :: y in s ==> y <= m;
      m
  }
}
