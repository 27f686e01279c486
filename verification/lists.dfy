/** Generic sequence helpers: first-match search, duplicate freedom and
    first-occurrence position. */
module Lists {
  import opened Wrappers

  /** The position of the first element satisfying `p`, if any. */
  function FirstWhere<T>(xs: seq<T>, p: T -> bool): (r: Option<nat>)
    ensures r.Some? ==> r.value < |xs| && p(xs[r.value])
    ensures r.Some? ==> forall j :: 0 <= j < r.value ==> !p(xs[j])
    ensures r.None? <==> forall j :: 0 <= j < |xs| ==> !p(xs[j])
  {
    if xs == [] then None
    else if p(xs[0]) then Some(0)
    else match FirstWhere(xs[1..], p)
      case None => None
      case Some(i) => Some(i + 1)
  }

  /** Whatever index is first to satisfy `p` is the one found. */
  lemma FirstWhereIsFirst<T>(xs: seq<T>, p: T -> bool)
    ensures forall i :: (0 <= i < |xs| && p(xs[i]) && (forall j :: 0 <= j < i ==> !p(xs[j]))) ==>
                        FirstWhere(xs, p) == Some(i)
  {
  }

  predicate Distinct<T(==)>(xs: seq<T>) {
    forall i, j :: 0 <= i < j < |xs| ==> xs[i] != xs[j]
  }

  /** The position of the first occurrence of `x` in `xs`. */
  function IndexOf<T(==)>(xs: seq<T>, x: T): (r: nat)
    requires x in xs
    ensures r < |xs| && xs[r] == x
    ensures forall j :: 0 <= j < r ==> xs[j] != x
  {
    if xs[0] == x then 0 else 1 + IndexOf(xs[1..], x)
  }

  /** An element already met in `xs[..k]` was first met before `k`. */
  lemma IndexOfBefore<T>(xs: seq<T>, k: nat, x: T)
    requires k <= |xs| && x in xs[..k]
    ensures x in xs && IndexOf(xs, x) < k
  {
    var j :| 0 <= j < k && xs[..k][j] == x;
    assert xs[j] == x;
  }

  /** An element not met in `xs[..k]` but found at `k` is first met at `k`. */
  lemma IndexOfAt<T>(xs: seq<T>, k: nat)
    requires k < |xs| && xs[k] !in xs[..k]
    ensures IndexOf(xs, xs[k]) == k
  {
    var r := IndexOf(xs, xs[k]);
    assert forall j :: 0 <= j < k ==> xs[..k][j] == xs[j];
  }

  /** The reference for order-keeping deduplication: the elements of `xs`
      at their first occurrence, in order. */
  function UniqueOf<T(==)>(xs: seq<T>): (u: seq<T>)
    decreases |xs|
  {
    if xs == [] then []
    else
      var init := xs[..|xs| - 1];
      var last := xs[|xs| - 1];
      if last in init then UniqueOf(init) else UniqueOf(init) + [last]
  }

  /** What `UniqueOf` keeps: each element of `xs` exactly once, ordered by
      where it first occurs. */
  lemma {:induction false} UniqueOfSpec<T>(xs: seq<T>)
    ensures Distinct(UniqueOf(xs))
    ensures forall x :: x in UniqueOf(xs) ==> x in xs
    ensures forall x :: x in xs ==> x in UniqueOf(xs)
    ensures forall i, j :: 0 <= i < j < |UniqueOf(xs)| ==>
                          IndexOf(xs, UniqueOf(xs)[i]) < IndexOf(xs, UniqueOf(xs)[j])
    decreases |xs|
  {
    if xs != [] {
      var k := |xs| - 1;
      var init := xs[..k];
      var last := xs[k];
      UniqueOfSpec(init);
      assert xs == init + [last];
      var u := UniqueOf(init);
      forall y | y in init
        ensures IndexOf(xs, y) == IndexOf(init, y)
      {
        PrefixIndexOf(xs, k, y);
      }
      forall i | 0 <= i < |u|
        ensures u[i] in init
      {
        assert u[i] in UniqueOf(init);
      }
      forall i, j | 0 <= i < j < |u|
        ensures IndexOf(xs, u[i]) < IndexOf(xs, u[j])
      {
        assert IndexOf(init, u[i]) < IndexOf(init, u[j]);
      }
      var w := UniqueOf(xs);
      if last in init {
        assert w == u;
      } else {
        assert w == u + [last];
        IndexOfAt(xs, k);
        forall i | 0 <= i < |u|
          ensures IndexOf(xs, u[i]) < IndexOf(xs, last)
        {
          IndexOfBefore(xs, k, u[i]);
        }
        forall i, j | 0 <= i < j < |w|
          ensures IndexOf(xs, w[i]) < IndexOf(xs, w[j])
        {
          if j < |u| {
            assert w[i] == u[i] && w[j] == u[j];
          } else {
            assert w[i] == u[i] && w[j] == last;
          }
        }
      }
    }
  }

  /** Inside a prefix that contains it, an element is first met where it
      is first met in the whole sequence. */
  lemma PrefixIndexOf<T>(xs: seq<T>, k: nat, x: T)
    requires k <= |xs| && x in xs[..k]
    ensures x in xs && IndexOf(xs[..k], x) == IndexOf(xs, x)
  {
    IndexOfBefore(xs, k, x);
    var n := IndexOf(xs, x);
    assert xs[..k][n] == x;
    assert forall j :: 0 <= j < n ==> xs[..k][j] == xs[j];
    var m := IndexOf(xs[..k], x);
    assert xs[m] == x;
  }

  /** `[f(x) for x in xs if keep(x)]`. */
  function FilterMap<T, U>(xs: seq<T>, keep: T -> bool, f: T -> U): (r: seq<U>)
    ensures |r| <= |xs|
    ensures r == [] <==> forall j :: 0 <= j < |xs| ==> !keep(xs[j])
  {
    if xs == [] then []
    else
      var rest := FilterMap(xs[1..], keep, f);
      assert forall j :: 0 <= j < |xs[1..]| ==> xs[1..][j] == xs[j + 1];
      if keep(xs[0]) then [f(xs[0])] + rest else rest
  }

  /** How many elements of `xs` are kept. */
  function CountKept<T>(xs: seq<T>, keep: T -> bool): nat
  {
    if xs == [] then 0 else (if keep(xs[0]) then 1 else 0) + CountKept(xs[1..], keep)
  }

  /** `r` is the images of the kept elements of `xs`, in order: one per
      kept element, the one of the element at `i` coming after the images
      of the kept elements before `i`. */
  predicate InOrder<T, U(==)>(xs: seq<T>, keep: T -> bool, f: T -> U, r: seq<U>) {
    && |r| == CountKept(xs, keep)
    && forall i :: 0 <= i < |xs| && keep(xs[i]) ==>
                     CountKept(xs[..i], keep) < |r| && r[CountKept(xs[..i], keep)] == f(xs[i])
  }

  /** The comprehension keeps document order. */
  lemma {:induction false} FilterMapInOrder<T, U>(xs: seq<T>, keep: T -> bool, f: T -> U)
    ensures InOrder(xs, keep, f, FilterMap(xs, keep, f))
    decreases |xs|
  {
    if xs != [] {
      var rest := FilterMap(xs[1..], keep, f);
      var r := FilterMap(xs, keep, f);
      FilterMapInOrder(xs[1..], keep, f);
      var c := if keep(xs[0]) then 1 else 0;
      assert r == if keep(xs[0]) then [f(xs[0])] + rest else rest;
      forall i | 0 <= i < |xs| && keep(xs[i])
        ensures CountKept(xs[..i], keep) < |r| && r[CountKept(xs[..i], keep)] == f(xs[i])
      {
        if i > 0 {
          assert xs[..i][1..] == xs[1..][..i - 1];
          assert xs[1..][i - 1] == xs[i];
          assert CountKept(xs[..i], keep) == c + CountKept(xs[1..][..i - 1], keep);
        } else {
          assert xs[..0] == [];
        }
      }
    }
  }

  /** The comprehension holds exactly the images of the kept elements. */
  lemma {:induction false} FilterMapMembers<T, U>(xs: seq<T>, keep: T -> bool, f: T -> U)
    ensures forall y :: y in FilterMap(xs, keep, f) <==> exists x :: x in xs && keep(x) && f(x) == y
    decreases |xs|
  {
    if xs != [] {
      FilterMapMembers(xs[1..], keep, f);
      assert forall x :: x in xs <==> x == xs[0] || x in xs[1..];
    }
  }

  /** A comprehension that keeps every element and maps each to itself is
      the list itself. */
  lemma {:induction false} FilterMapKeepsAll<T>(xs: seq<T>, keep: T -> bool, f: T -> T)
    requires forall j :: 0 <= j < |xs| ==> keep(xs[j]) && f(xs[j]) == xs[j]
    ensures FilterMap(xs, keep, f) == xs
    decreases |xs|
  {
    if xs != [] {
      FilterMapKeepsAll(xs[1..], keep, f);
    }
  }

  /** `[f(x) for x in xs]`. */
  function Map<T, U>(xs: seq<T>, f: T -> U): (r: seq<U>)
    ensures |r| == |xs| && forall k :: 0 <= k < |xs| ==> r[k] == f(xs[k])
  {
    if xs == [] then [] else [f(xs[0])] + Map(xs[1..], f)
  }
}
