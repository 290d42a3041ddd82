/** The pandas column operations the extractors are built from: selection
    by a boolean mask (`df[mask]`), a derived column with its nulls dropped
    (what `groupby` and `value_counts` do by default) and `unique()`. */
module Series {
  import opened Wrappers
  import opened Counting

  /** `xs[mask]` for the mask `p`: the elements satisfying `p`, in order. */
  function Filter<T(!new)>(p: T -> bool, xs: seq<T>): (r: seq<T>)
    ensures |r| <= |xs|
    ensures forall i :: 0 <= i < |r| ==> p(r[i])
  {
    if xs == [] then [] else (if p(xs[0]) then [xs[0]] else []) + Filter(p, xs[1..])
  }

  /** The selection holds every element satisfying the mask as often as
      `xs` does, and nothing else. */
  lemma {:induction false} FilterMultiset<T(!new)>(p: T -> bool, xs: seq<T>)
    ensures forall x :: multiset(Filter(p, xs))[x] == if p(x) then multiset(xs)[x] else 0
  {
    if xs != [] {
      assert xs == [xs[0]] + xs[1..];
      FilterMultiset(p, xs[1..]);
    }
  }

  /** Selection keeps the order: masking a concatenation masks each part. */
  lemma {:induction false} FilterAppend<T(!new)>(p: T -> bool, a: seq<T>, b: seq<T>)
    ensures Filter(p, a + b) == Filter(p, a) + Filter(p, b)
  {
    if a == [] {
      assert a + b == b;
    } else {
      var head := if p(a[0]) then [a[0]] else [];
      assert (a + b)[0] == a[0] && (a + b)[1..] == a[1..] + b;
      assert Filter(p, a + b) == head + Filter(p, a[1..] + b);
      FilterAppend(p, a[1..], b);
      assert Filter(p, a) == head + Filter(p, a[1..]);
    }
  }

  /** Two masks that agree everywhere select the same elements. */
  lemma {:induction false} FilterSame<T(!new)>(p: T -> bool, q: T -> bool, xs: seq<T>)
    requires forall x :: p(x) == q(x)
    ensures Filter(p, xs) == Filter(q, xs)
  {
    if xs != [] { FilterSame(p, q, xs[1..]); }
  }

  /** A mask that keeps fewer elements selects no more of them. */
  lemma {:induction false} FilterWeaker<T(!new)>(p: T -> bool, q: T -> bool, xs: seq<T>)
    requires forall x :: p(x) ==> q(x)
    ensures |Filter(p, xs)| <= |Filter(q, xs)|
  {
    if xs != [] { FilterWeaker(p, q, xs[1..]); }
  }

  /** The derived column `f` with its nulls dropped, in order. */
  function FilterMap<A, B>(f: A -> Option<B>, xs: seq<A>): (r: seq<B>)
    ensures |r| <= |xs|
  {
    if xs == [] then []
    else (if f(xs[0]).Some? then [f(xs[0]).value] else []) + FilterMap(f, xs[1..])
  }

  /** Rows whose derived value is not null. */
  function Defined<A, B>(f: A -> Option<B>): A -> bool {
    (x: A) => f(x).Some?
  }

  /** Rows whose derived value is `y`. */
  function Yields<A, B(==)>(f: A -> Option<B>, y: B): A -> bool {
    (x: A) => f(x) == Some(y)
  }

  /** Each value of the derived column occurs once per row yielding it. */
  lemma {:induction false} FilterMapCount<A(!new), B>(f: A -> Option<B>, xs: seq<A>, y: B)
    ensures multiset(FilterMap(f, xs))[y] == |Filter(Yields(f, y), xs)|
  {
    if xs != [] {
      FilterMapCount(f, xs[1..], y);
    }
  }

  /** The column has one value per row that does not yield null. */
  lemma {:induction false} FilterMapSize<A(!new), B>(f: A -> Option<B>, xs: seq<A>)
    ensures |FilterMap(f, xs)| == |Filter(Defined(f), xs)|
  {
    if xs != [] {
      FilterMapSize(f, xs[1..]);
    }
  }

  /** An element the mask selects is an element of `xs` satisfying it. */
  lemma FilterMember<T(!new)>(p: T -> bool, xs: seq<T>, x: T)
    requires x in Filter(p, xs)
    ensures x in xs && p(x)
  {
    FilterMultiset(p, xs);
    assert multiset(Filter(p, xs))[x] > 0;
  }

  /** Distinct elements drawn from `u` are no more than `u` has. */
  lemma DistinctWithin<T(!new)>(s: seq<T>, u: seq<T>)
    requires Distinct(s) && forall i :: 0 <= i < |s| ==> s[i] in u
    ensures |s| <= |u|
  {
    DistinctSetSize(s);
    SetSizeAtMost(u);
    assert (set x | x in s) <= (set x | x in u);
    SubsetSize(set x | x in s, set x | x in u);
  }

  lemma {:induction false} DistinctSetSize<T(!new)>(s: seq<T>)
    requires Distinct(s)
    ensures |set x | x in s| == |s|
  {
    if s != [] {
      DistinctSetSize(s[1..]);
      assert (set x | x in s) == {s[0]} + (set x | x in s[1..]);
      assert s[0] !in s[1..] by {
        forall j | 0 <= j < |s[1..]| ensures s[1..][j] != s[0] {
          assert s[1..][j] == s[j + 1];
        }
      }
    }
  }

  lemma {:induction false} SetSizeAtMost<T(!new)>(u: seq<T>)
    ensures |set x | x in u| <= |u|
  {
    if u != [] {
      SetSizeAtMost(u[1..]);
      assert (set x | x in u) == {u[0]} + (set x | x in u[1..]);
    }
  }

  lemma {:induction false} SubsetSize<T>(a: set<T>, b: set<T>)
    requires a <= b
    ensures |a| <= |b|
    decreases |a|
  {
    if a != {} {
      var x :| x in a;
      SubsetSize(a - {x}, b - {x});
    }
  }

  /** `unique()`: each element once. */
  function Unique<T(==,!new)>(xs: seq<T>): (u: seq<T>)
    ensures Distinct(u)
    ensures forall x :: x in u <==> x in xs
    decreases |xs|
  {
    if xs == [] then []
    else
      var init, x := xs[..|xs| - 1], xs[|xs| - 1];
      assert xs == init + [x];
      var u := Unique(init);
      if x in u then u else u + [x]
  }
}
