/**
 * Sequence and set operations that pandas and Python perform for the filter code:
 * boolean-mask selection (`data[mask]`), `dropna()`, `unique()` and `sorted()`.
 */
module Collections {
  import opened Wrappers

  /** The elements of `xs` for which `p` holds, in their original order: `xs[mask]`. */
  function Where<T(!new)>(xs: seq<T>, p: T -> bool): (r: seq<T>)
    ensures |r| <= |xs|
    ensures forall x :: x in r <==> x in xs && p(x)
  {
    if xs == [] then []
    else Where(xs[..|xs| - 1], p) + (if p(xs[|xs| - 1]) then [xs[|xs| - 1]] else [])
  }

  /** `a` is obtained from `b` by deleting elements: nothing is added or reordered. */
  ghost predicate IsSubsequence<T(!new)>(a: seq<T>, b: seq<T>)
    decreases |b|
  {
    a == [] ||
    (b != [] &&
     ((a[|a| - 1] == b[|b| - 1] && IsSubsequence(a[..|a| - 1], b[..|b| - 1])) ||
      IsSubsequence(a, b[..|b| - 1])))
  }

  lemma {:induction false} SubsequenceSnoc<T(!new)>(a: seq<T>, b: seq<T>, x: T)
    requires IsSubsequence(a, b)
    ensures IsSubsequence(a + [x], b + [x])
  {
    assert (a + [x])[..|a|] == a && (b + [x])[..|b|] == b;
  }

  lemma {:induction false} SubsequenceSkip<T(!new)>(a: seq<T>, b: seq<T>, x: T)
    requires IsSubsequence(a, b)
    ensures IsSubsequence(a, b + [x])
  {
    assert (b + [x])[..|b|] == b;
  }

  lemma {:induction false} WhereIsSubsequence<T(!new)>(xs: seq<T>, p: T -> bool)
    ensures IsSubsequence(Where(xs, p), xs)
  {
    if xs != [] {
      var init, last := xs[..|xs| - 1], xs[|xs| - 1];
      WhereIsSubsequence(init, p);
      assert xs == init + [last];
      if p(last) {
        assert Where(xs, p) == Where(init, p) + [last];
        SubsequenceSnoc(Where(init, p), init, last);
      } else {
        assert Where(xs, p) == Where(init, p);
        SubsequenceSkip(Where(init, p), init, last);
      }
    }
  }

  /** Selection keeps every copy of a selected element and no copy of another one. */
  lemma {:induction false} WhereCount<T(!new)>(xs: seq<T>, p: T -> bool, x: T)
    ensures multiset(Where(xs, p))[x] == if p(x) then multiset(xs)[x] else 0
  {
    if xs != [] {
      var init := xs[..|xs| - 1];
      WhereCount(init, p, x);
      assert xs == init + [xs[|xs| - 1]];
    }
  }

  /** Two selections in a row are one selection by the conjunction of their predicates. */
  lemma {:induction false} WhereOfWhere<T(!new)>(xs: seq<T>, p: T -> bool, q: T -> bool, pq: T -> bool)
    requires forall x :: pq(x) == (p(x) && q(x))
    ensures Where(Where(xs, p), q) == Where(xs, pq)
  {
    if xs != [] {
      var init := xs[..|xs| - 1];
      var last := xs[|xs| - 1];
      WhereOfWhere(init, p, q, pq);
      var w := Where(init, p);
      if p(last) {
        assert Where(xs, p) == w + [last];
        assert (w + [last])[..|w|] == w;
      } else {
        assert Where(xs, p) == w;
      }
    }
  }

  /** A selection that every element passes changes nothing. */
  lemma {:induction false} WhereKeepsAll<T(!new)>(xs: seq<T>, p: T -> bool)
    requires forall x :: x in xs ==> p(x)
    ensures Where(xs, p) == xs
  {
    if xs != [] {
      var init, last := xs[..|xs| - 1], xs[|xs| - 1];
      assert xs == init + [last];
      assert p(last);
      WhereKeepsAll(init, p);
      assert Where(xs, p) == Where(init, p) + [last];
    }
  }

  /** A selection that no element passes is empty. */
  lemma {:induction false} WhereNone<T(!new)>(xs: seq<T>, p: T -> bool)
    requires forall x :: x in xs ==> !p(x)
    ensures Where(xs, p) == []
  {
    if xs != [] {
      var init, last := xs[..|xs| - 1], xs[|xs| - 1];
      assert xs == init + [last];
      assert !p(last);
      WhereNone(init, p);
    }
  }

  /** A selection is empty exactly when no element passes it. */
  lemma {:induction false} WhereEmpty<T(!new)>(xs: seq<T>, p: T -> bool)
    ensures Where(xs, p) == [] <==> forall x :: x in xs ==> !p(x)
  {
    if Where(xs, p) != [] {
      assert Where(xs, p)[0] in Where(xs, p);
    }
  }

  /** A selection depends only on the predicate's values on the selected sequence. */
  lemma {:induction false} WhereExt<T(!new)>(xs: seq<T>, p: T -> bool, q: T -> bool)
    requires forall x :: x in xs ==> p(x) == q(x)
    ensures Where(xs, p) == Where(xs, q)
  {
    if xs != [] {
      var init, last := xs[..|xs| - 1], xs[|xs| - 1];
      assert xs == init + [last];
      assert p(last) == q(last);
      WhereExt(init, p, q);
    }
  }

  /** `column.dropna()`: the present values of a column, in order. */
  function DropNa<T(!new)>(column: seq<Option<T>>): (r: seq<T>)
    ensures |r| <= |column|
    ensures forall x :: x in r <==> Some(x) in column
  {
    if column == [] then []
    else
      var init := column[..|column| - 1];
      assert column == init + [column[|column| - 1]];
      DropNa(init) + (match column[|column| - 1] case Some(v) => [v] case None => [])
  }

  /** `unique()`: one copy of every value, in order of first appearance. */
  function Unique<T(==, !new)>(xs: seq<T>): (r: seq<T>)
    ensures forall x :: x in r <==> x in xs
    ensures forall i, j :: 0 <= i < j < |r| ==> r[i] != r[j]
  {
    if xs == [] then []
    else
      var u := Unique(xs[..|xs| - 1]);
      var last := xs[|xs| - 1];
      assert xs == xs[..|xs| - 1] + [last];
      if last in u then u else u + [last]
  }

  /** `{f(x) for x in xs}`, collected element after element. */
  ghost function ImageOf<T(!new), U(!new)>(xs: seq<T>, f: T -> U): set<U> {
    if xs == [] then {} else ImageOf(xs[..|xs| - 1], f) + {f(xs[|xs| - 1])}
  }

  lemma {:induction false} ImageOfMembership<T(!new), U(!new)>(xs: seq<T>, f: T -> U, y: U)
    ensures y in ImageOf(xs, f) <==> exists k :: 0 <= k < |xs| && f(xs[k]) == y
  {
    if xs != [] {
      var init := xs[..|xs| - 1];
      ImageOfMembership(init, f, y);
      if k :| 0 <= k < |init| && f(init[k]) == y {
        assert f(xs[k]) == y;
      }
      if k :| 0 <= k < |xs| && f(xs[k]) == y {
        if k < |init| {
          assert f(init[k]) == y;
        }
      }
    }
  }

  /** Extending the prefix by one element adds that element's image. */
  lemma {:induction false} ImageOfPrefix<T(!new), U(!new)>(xs: seq<T>, f: T -> U, j: int)
    requires 0 <= j < |xs|
    ensures ImageOf(xs[..j + 1], f) == ImageOf(xs[..j], f) + {f(xs[j])}
  {
    assert xs[..j + 1][..j] == xs[..j];
  }

  /** `for x in xs: found.add(f(x))`. */
  method AddImage<T(!new), U(!new)>(found: set<U>, xs: seq<T>, f: T -> U) returns (r: set<U>)
    ensures r == found + ImageOf(xs, f)
  {
    r := found;
    for j := 0 to |xs|
      invariant r == found + ImageOf(xs[..j], f)
    {
      r := r + {f(xs[j])};
      ImageOfPrefix(xs, f, j);
    }
    assert xs[..|xs|] == xs;
  }

  /** The union of `f(x)` over the elements of `xs`, accumulated element after element. */
  ghost function UnionOf<T(!new), U(!new)>(xs: seq<T>, f: T -> set<U>): set<U> {
    if xs == [] then {} else UnionOf(xs[..|xs| - 1], f) + f(xs[|xs| - 1])
  }

  lemma {:induction false} UnionOfMembership<T(!new), U(!new)>(xs: seq<T>, f: T -> set<U>, y: U)
    ensures y in UnionOf(xs, f) <==> exists x :: x in xs && y in f(x)
  {
    if xs != [] {
      var init, last := xs[..|xs| - 1], xs[|xs| - 1];
      UnionOfMembership(init, f, y);
      assert xs == init + [last];
      if x :| x in xs && y in f(x) {
        if x != last {
          assert x in init;
        }
      }
    }
  }

  /** Extending the prefix by one element adds that element's set. */
  lemma {:induction false} UnionOfPrefix<T(!new), U(!new)>(xs: seq<T>, f: T -> set<U>, i: int)
    requires 0 <= i < |xs|
    ensures UnionOf(xs[..i + 1], f) == UnionOf(xs[..i], f) + f(xs[i])
  {
    assert xs[..i + 1][..i] == xs[..i];
  }

  /** `lt` is a strict total order, as Python's `<` is on `str` and on numbers. */
  ghost predicate StrictTotalOrder<T(!new)>(lt: (T, T) -> bool) {
    && (forall x :: !lt(x, x))
    && (forall x, y, z :: lt(x, y) && lt(y, z) ==> lt(x, z))
    && (forall x, y :: x != y ==> lt(x, y) || lt(y, x))
  }

  /** Every element is below every later one: sorted ascending and free of duplicates. */
  ghost predicate Ascending<T(!new)>(s: seq<T>, lt: (T, T) -> bool) {
    forall i, j :: 0 <= i < j < |s| ==> lt(s[i], s[j])
  }

  lemma {:induction false} AscendingHasNoDuplicates<T(!new)>(s: seq<T>, lt: (T, T) -> bool)
    requires StrictTotalOrder(lt) && Ascending(s, lt)
    ensures forall i, j :: 0 <= i < j < |s| ==> s[i] != s[j]
  {
  }

  /** The least element of a non-empty finite set. */
  method Least<T(==, !new)>(s: set<T>, lt: (T, T) -> bool) returns (m: T)
    requires StrictTotalOrder(lt) && s != {}
    ensures m in s
    ensures forall x :: x in s && x != m ==> lt(m, x)
  {
    m :| m in s;
    var seen := {m};
    while seen != s
      invariant seen <= s && m in seen
      invariant forall x :: x in seen && x != m ==> lt(m, x)
      decreases |s - seen|
    {
      var x :| x in s - seen;
      if lt(x, m) {
        m := x;
      }
      seen := seen + {x};
    }
  }

  /**
   * `sorted(list(s))`: the elements of a finite set in ascending order. Python sorts with
   * Timsort; here the least remaining element is taken repeatedly, which has the same result.
   */
  method SortSet<T(==, !new)>(s: set<T>, lt: (T, T) -> bool) returns (r: seq<T>)
    requires StrictTotalOrder(lt)
    ensures Ascending(r, lt)
    ensures forall x :: x in r <==> x in s
  {
    r := [];
    var rest := s;
    while rest != {}
      invariant rest <= s
      invariant Ascending(r, lt)
      invariant forall x :: x in s <==> x in r || x in rest
      invariant forall i, y :: 0 <= i < |r| && y in rest ==> lt(r[i], y)
      decreases |rest|
    {
      var m := Least(rest, lt);
      r := r + [m];
      rest := rest - {m};
    }
  }
}
