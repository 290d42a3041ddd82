/** Frequency tables over sequences: Python's `collections.Counter` and its
    `most_common`, and the sorted per-key counts that a pandas `groupby`
    followed by `count()` produces. Occurrences are `multiset(xs)[x]`. */
module Counting {
  import opened Wrappers
  import opened Orders

  /** One row of a frequency table. */
  datatype Entry<T> = Entry(key: T, count: nat)

  function Keys<T>(es: seq<Entry<T>>): (ks: seq<T>)
    ensures |ks| == |es|
    ensures forall i :: 0 <= i < |es| ==> ks[i] == es[i].key
  {
    if es == [] then [] else [es[0].key] + Keys(es[1..])
  }

  predicate Distinct<T(==)>(s: seq<T>) {
    forall i, j :: 0 <= i < j < |s| ==> s[i] != s[j]
  }

  /** The count a table records for `x` (its first row for `x`), 0 if none. */
  function CountOf<T(==)>(es: seq<Entry<T>>, x: T): nat {
    if es == [] then 0 else if es[0].key == x then es[0].count else CountOf(es[1..], x)
  }

  function SumCounts<T>(es: seq<Entry<T>>): nat {
    if es == [] then 0 else es[0].count + SumCounts(es[1..])
  }

  /** Position of the first occurrence of `x` in `xs`; `|xs|` when absent. */
  function FirstIndex<T(==)>(xs: seq<T>, x: T): (k: nat)
    ensures k <= |xs|
    ensures k < |xs| <==> x in xs
    ensures k < |xs| ==> xs[k] == x
  {
    if xs == [] then 0 else if xs[0] == x then 0 else 1 + FirstIndex(xs[1..], x)
  }

  lemma {:induction false} FirstIndexAppend<T>(xs: seq<T>, z: T, x: T)
    requires x in xs || x == z
    ensures FirstIndex(xs + [z], x) == if x in xs then FirstIndex(xs, x) else |xs|
  {
    if xs != [] {
      assert (xs + [z])[1..] == xs[1..] + [z];
      if xs[0] != x { FirstIndexAppend(xs[1..], z, x); }
    } else {
      assert xs + [z] == [z];
    }
  }

  lemma {:induction false} CountOfAt<T>(es: seq<Entry<T>>, i: nat)
    requires Distinct(Keys(es)) && i < |es|
    ensures CountOf(es, es[i].key) == es[i].count
  {
    if i > 0 {
      assert Keys(es)[0] != Keys(es)[i];
      assert Keys(es[1..]) == Keys(es)[1..];
      CountOfAt(es[1..], i - 1);
    }
  }

  lemma {:induction false} CountOfAbsent<T>(es: seq<Entry<T>>, x: T)
    requires x !in Keys(es)
    ensures CountOf(es, x) == 0
  {
    if es != [] {
      assert Keys(es[1..]) == Keys(es)[1..];
      CountOfAbsent(es[1..], x);
    }
  }

  // ---------------------------------------------------------------------
  // Counter: a dictionary in insertion order, one row per distinct element.

  /** Counting one more `x`: its row is incremented, or appended with 1. */
  function Bump<T(==,!new)>(es: seq<Entry<T>>, x: T): (r: seq<Entry<T>>)
    ensures Keys(r) == if x in Keys(es) then Keys(es) else Keys(es) + [x]
    ensures forall y :: CountOf(r, y) == CountOf(es, y) + (if y == x then 1 else 0)
    ensures SumCounts(r) == SumCounts(es) + 1
  {
    if es == [] then [Entry(x, 1)]
    else if es[0].key == x then [Entry(x, es[0].count + 1)] + es[1..]
    else
      var r := [es[0]] + Bump(es[1..], x);
      assert Keys(es) == [es[0].key] + Keys(es[1..]);
      assert Keys(r) == [es[0].key] + Keys(Bump(es[1..], x));
      r
  }

  /** `Counter(xs)`: one row per distinct element, in first-occurrence order,
      holding its number of occurrences. */
  function CounterOf<T(==,!new)>(xs: seq<T>): (es: seq<Entry<T>>)
    ensures Distinct(Keys(es))
    ensures forall y :: y in Keys(es) <==> y in xs
    ensures forall y :: CountOf(es, y) == multiset(xs)[y]
    ensures SumCounts(es) == |xs|
  {
    if xs == [] then []
    else
      var init := xs[..|xs| - 1];
      var x := xs[|xs| - 1];
      assert xs == init + [x];
      var prev := CounterOf(init);
      BumpCounts(init, x, prev);
      Bump(prev, x)
  }

  /** Counting one more element keeps a table that counts `init` exact. */
  lemma BumpCounts<T(!new)>(init: seq<T>, x: T, prev: seq<Entry<T>>)
    requires Distinct(Keys(prev))
    requires forall y :: y in Keys(prev) <==> y in init
    requires forall y :: CountOf(prev, y) == multiset(init)[y]
    requires SumCounts(prev) == |init|
    ensures Distinct(Keys(Bump(prev, x)))
    ensures forall y :: y in Keys(Bump(prev, x)) <==> y in init + [x]
    ensures forall y :: CountOf(Bump(prev, x), y) == multiset(init + [x])[y]
    ensures SumCounts(Bump(prev, x)) == |init + [x]|
  {
    BumpKeepsDistinct(prev, x);
    assert forall y :: y in init + [x] <==> y in init || y == x;
    assert forall y :: multiset(init + [x])[y] == multiset(init)[y] + (if y == x then 1 else 0);
  }

  lemma BumpKeepsDistinct<T(!new)>(es: seq<Entry<T>>, x: T)
    requires Distinct(Keys(es))
    ensures Distinct(Keys(Bump(es, x)))
  {
    var ks := Keys(es);
    if x !in ks {
      var r := ks + [x];
      forall i, j | 0 <= i < j < |r| ensures r[i] != r[j] {
        if j == |ks| { assert r[i] == ks[i]; }
      }
    }
  }

  /** The rows of a Counter follow the first occurrences of their keys. */
  lemma {:induction false} CounterFirstOccurrenceOrder<T(!new)>(xs: seq<T>)
    ensures var ks := Keys(CounterOf(xs));
      forall i, j :: 0 <= i < j < |ks| ==> FirstIndex(xs, ks[i]) < FirstIndex(xs, ks[j])
  {
    if xs != [] {
      var init := xs[..|xs| - 1];
      var x := xs[|xs| - 1];
      CounterFirstOccurrenceOrder(init);
      CounterStep(xs);
      FirstOrderAll(init, x, Keys(CounterOf(init)), Keys(CounterOf(xs)));
      assert xs == init + [x];
    }
  }

  lemma FirstOrderAll<T>(init: seq<T>, x: T, oks: seq<T>, ks: seq<T>)
    requires forall y :: y in oks <==> y in init
    requires forall i, j :: 0 <= i < j < |oks| ==> FirstIndex(init, oks[i]) < FirstIndex(init, oks[j])
    requires ks == if x in oks then oks else oks + [x]
    ensures forall i, j :: 0 <= i < j < |ks| ==> FirstIndex(init + [x], ks[i]) < FirstIndex(init + [x], ks[j])
  {
    forall i, j | 0 <= i < j < |ks| ensures FirstIndex(init + [x], ks[i]) < FirstIndex(init + [x], ks[j]) {
      FirstOrderStep(init, x, oks, ks, i, j);
    }
  }

  /** How the keys of a Counter change when one more element is counted. */
  lemma CounterStep<T(!new)>(xs: seq<T>)
    requires xs != []
    ensures var oks := Keys(CounterOf(xs[..|xs| - 1]));
      && Keys(CounterOf(xs)) == (if xs[|xs| - 1] in oks then oks else oks + [xs[|xs| - 1]])
      && (forall y :: y in oks <==> y in xs[..|xs| - 1])
  {
  }

  lemma FirstOrderStep<T>(init: seq<T>, x: T, oks: seq<T>, ks: seq<T>, i: nat, j: nat)
    requires forall y :: y in oks <==> y in init
    requires forall i, j :: 0 <= i < j < |oks| ==> FirstIndex(init, oks[i]) < FirstIndex(init, oks[j])
    requires ks == if x in oks then oks else oks + [x]
    requires i < j < |ks|
    ensures FirstIndex(init + [x], ks[i]) < FirstIndex(init + [x], ks[j])
  {
    assert ks[i] == oks[i] && oks[i] in init;
    FirstIndexAppend(init, x, ks[i]);
    if j < |oks| {
      assert ks[j] == oks[j] && oks[j] in init;
      FirstIndexAppend(init, x, ks[j]);
    } else {
      assert ks[j] == x && x !in init;
      FirstIndexAppend(init, x, x);
    }
  }

  // ---------------------------------------------------------------------
  // most_common: a stable sort of the rows by descending count.

  /** Number of leading rows whose count exceeds `e`'s. */
  function DescPos<T>(e: Entry<T>, s: seq<Entry<T>>): (p: nat)
    ensures p <= |s|
    ensures forall k :: 0 <= k < p ==> s[k].count > e.count
    ensures p < |s| ==> s[p].count <= e.count
  {
    if s == [] || s[0].count <= e.count then 0 else 1 + DescPos(e, s[1..])
  }

  lemma {:induction false} SumCountsAppend<T>(a: seq<Entry<T>>, b: seq<Entry<T>>)
    ensures SumCounts(a + b) == SumCounts(a) + SumCounts(b)
  {
    if a == [] {
      assert a + b == b;
    } else {
      assert (a + b)[1..] == a[1..] + b;
      SumCountsAppend(a[1..], b);
    }
  }

  /** Places `e` before the first row whose count does not exceed its own. */
  function InsertDesc<T>(e: Entry<T>, s: seq<Entry<T>>): (r: seq<Entry<T>>)
    ensures multiset(r) == multiset(s) + multiset{e}
    ensures SumCounts(r) == SumCounts(s) + e.count
  {
    var p := DescPos(e, s);
    assert s == s[..p] + s[p..];
    SumCountsAppend(s[..p], [e] + s[p..]);
    SumCountsAppend(s[..p], s[p..]);
    assert SumCounts([e] + s[p..]) == e.count + SumCounts(s[p..]) by {
      assert ([e] + s[p..])[1..] == s[p..];
    }
    assert s[..p] + [e] + s[p..] == s[..p] + ([e] + s[p..]);
    s[..p] + [e] + s[p..]
  }

  /** `sorted(rows, key=count, reverse=True)`: stable, so equal counts keep
      the order they had. */
  function SortDesc<T>(es: seq<Entry<T>>): (r: seq<Entry<T>>)
    ensures multiset(r) == multiset(es)
    ensures SumCounts(r) == SumCounts(es)
  {
    if es == [] then []
    else
      assert es == [es[0]] + es[1..];
      InsertDesc(es[0], SortDesc(es[1..]))
  }

  /** Counts never increase, and rows with equal counts are ordered by `rank`. */
  ghost predicate ByCountThenRank<T>(s: seq<Entry<T>>, rank: T -> int) {
    forall i, j :: 0 <= i < j < |s| ==>
      s[i].count > s[j].count || (s[i].count == s[j].count && rank(s[i].key) < rank(s[j].key))
  }

  lemma InsertDescOrdered<T>(e: Entry<T>, s: seq<Entry<T>>, rank: T -> int)
    requires ByCountThenRank(s, rank)
    requires forall k :: 0 <= k < |s| ==> rank(e.key) < rank(s[k].key)
    ensures ByCountThenRank(InsertDesc(e, s), rank)
  {
    var p := DescPos(e, s);
    var r := InsertDesc(e, s);
    forall i, j | 0 <= i < j < |r|
      ensures r[i].count > r[j].count || (r[i].count == r[j].count && rank(r[i].key) < rank(r[j].key))
    {
      InsertDescPair(e, s, rank, i, j);
    }
  }

  lemma InsertDescPair<T>(e: Entry<T>, s: seq<Entry<T>>, rank: T -> int, i: nat, j: nat)
    requires ByCountThenRank(s, rank)
    requires forall k :: 0 <= k < |s| ==> rank(e.key) < rank(s[k].key)
    requires i < j < |InsertDesc(e, s)|
    ensures var r := InsertDesc(e, s);
      r[i].count > r[j].count || (r[i].count == r[j].count && rank(r[i].key) < rank(r[j].key))
  {
    var p := DescPos(e, s);
    var r := InsertDesc(e, s);
    assert r == s[..p] + [e] + s[p..];
    if j < p {
      assert r[i] == s[i] && r[j] == s[j];
    } else if p < i {
      assert r[i] == s[i - 1] && r[j] == s[j - 1];
    } else if i < p {
      assert r[i] == s[i];
      if j == p {
        assert r[j] == e;
      } else {
        assert r[j] == s[j - 1];
        assert s[i].count > e.count && s[p].count <= e.count && !(s[j - 1].count > s[p].count);
      }
    } else {
      assert r[i] == e && r[j] == s[j - 1];
      if j - 1 > p { assert !(s[j - 1].count > s[p].count); }
    }
  }

  /** When the rows come ordered by `rank`, the stable descending sort
      orders them by count and then by `rank`. */
  lemma {:induction false} SortDescOrdered<T>(es: seq<Entry<T>>, rank: T -> int)
    requires forall i, j :: 0 <= i < j < |es| ==> rank(es[i].key) < rank(es[j].key)
    ensures ByCountThenRank(SortDesc(es), rank)
  {
    if es != [] {
      SortDescOrdered(es[1..], rank);
      var t := SortDesc(es[1..]);
      forall m | 0 <= m < |t| ensures rank(es[0].key) < rank(t[m].key) {
        assert t[m] in multiset(es[1..]) by { assert t[m] in multiset(t); }
        var k :| 0 <= k < |es[1..]| && es[1..][k] == t[m];
        assert es[k + 1] == t[m];
      }
      InsertDescOrdered(es[0], t, rank);
    }
  }

  /** `Counter(xs).most_common(n)`; `n == None` gives every row. */
  function MostCommon<T(==,!new)>(xs: seq<T>, n: Option<nat>): seq<Entry<T>> {
    Top(SortDesc(CounterOf(xs)), n)
  }

  /** The first `n` rows of a table, or all of them. */
  function Top<T>(all: seq<Entry<T>>, n: Option<nat>): (r: seq<Entry<T>>)
    ensures |r| <= |all| && forall i :: 0 <= i < |r| ==> r[i] == all[i]
    ensures |r| == if n.Some? && n.value < |all| then n.value else |all|
  {
    if n.Some? && n.value < |all| then all[..n.value] else all
  }

  lemma SortDescKeys<T>(es: seq<Entry<T>>, x: T)
    ensures x in Keys(SortDesc(es)) <==> x in Keys(es)
  {
    var r := SortDesc(es);
    if x in Keys(r) {
      var i :| 0 <= i < |r| && Keys(r)[i] == x;
      assert r[i] in multiset(es) by { assert r[i] in multiset(r); }
      var k :| 0 <= k < |es| && es[k] == r[i];
      assert Keys(es)[k] == x;
    }
    if x in Keys(es) {
      var i :| 0 <= i < |es| && Keys(es)[i] == x;
      assert es[i] in multiset(r) by { assert es[i] in multiset(es); }
      var k :| 0 <= k < |r| && r[k] == es[i];
      assert Keys(r)[k] == x;
    }
  }

  /** Rows of the sorted counter: each a distinct element of `xs` with its
      number of occurrences, by descending count, ties in first-occurrence
      order, every element of `xs` present. */
  lemma SortedCounter<T(!new)>(xs: seq<T>)
    ensures var all := SortDesc(CounterOf(xs));
      && (forall i :: 0 <= i < |all| ==> all[i].key in xs && all[i].count == multiset(xs)[all[i].key] > 0)
      && (forall i, j :: 0 <= i < j < |all| ==>
            all[i].count > all[j].count ||
            (all[i].count == all[j].count && FirstIndex(xs, all[i].key) < FirstIndex(xs, all[j].key)))
      && (forall x :: x in Keys(all) <==> x in xs)
      && SumCounts(all) == |xs|
  {
    var es := CounterOf(xs);
    var all := SortDesc(es);
    SortedCounterOrder(xs);
    forall i | 0 <= i < |all|
      ensures all[i].key in xs && all[i].count == multiset(xs)[all[i].key] > 0
    {
      SortedCounterRow(xs, i);
    }
    forall x ensures x in Keys(all) <==> x in xs {
      SortDescKeys(es, x);
    }
  }

  lemma SortedCounterOrder<T(!new)>(xs: seq<T>)
    ensures var all := SortDesc(CounterOf(xs));
      forall i, j :: 0 <= i < j < |all| ==>
        all[i].count > all[j].count ||
        (all[i].count == all[j].count && FirstIndex(xs, all[i].key) < FirstIndex(xs, all[j].key))
  {
    var es := CounterOf(xs);
    var rank := (k: T) => FirstIndex(xs, k) as int;
    forall i, j | 0 <= i < j < |es| ensures rank(es[i].key) < rank(es[j].key) {
      CounterRanked(xs, i, j);
    }
    SortDescOrdered(es, rank);
  }

  lemma CounterRanked<T(!new)>(xs: seq<T>, i: nat, j: nat)
    requires i < j < |CounterOf(xs)|
    ensures FirstIndex(xs, CounterOf(xs)[i].key) < FirstIndex(xs, CounterOf(xs)[j].key)
  {
    CounterFirstOccurrenceOrder(xs);
    assert Keys(CounterOf(xs))[i] == CounterOf(xs)[i].key;
    assert Keys(CounterOf(xs))[j] == CounterOf(xs)[j].key;
  }

  /** What `Counter(xs).most_common(n)` promises of the rows it returns:
      each holds a distinct element of `xs` with its number of occurrences,
      counts never increase, equal counts keep first-occurrence order, and
      there are at most `n` rows. */
  lemma MostCommonRows<T(!new)>(xs: seq<T>, n: Option<nat>)
    ensures var r := MostCommon(xs, n);
      && (forall i :: 0 <= i < |r| ==> r[i].key in xs && r[i].count == multiset(xs)[r[i].key] > 0)
      && (forall i, j :: 0 <= i < j < |r| ==>
            r[i].count > r[j].count ||
            (r[i].count == r[j].count && FirstIndex(xs, r[i].key) < FirstIndex(xs, r[j].key)))
      && Distinct(Keys(r))
      && (n.Some? ==> |r| <= n.value)
  {
    MostCommonCounts(xs, n);
    MostCommonOrder(xs, n);
    MostCommonDistinct(xs, n);
  }

  lemma MostCommonCounts<T(!new)>(xs: seq<T>, n: Option<nat>)
    ensures var r := MostCommon(xs, n);
      forall i :: 0 <= i < |r| ==> r[i].key in xs && r[i].count == multiset(xs)[r[i].key] > 0
  {
    var r := MostCommon(xs, n);
    forall i | 0 <= i < |r| ensures r[i].key in xs && r[i].count == multiset(xs)[r[i].key] > 0 {
      SortedCounterRow(xs, i);
    }
  }

  lemma MostCommonOrder<T(!new)>(xs: seq<T>, n: Option<nat>)
    ensures var r := MostCommon(xs, n);
      forall i, j :: 0 <= i < j < |r| ==>
        r[i].count > r[j].count ||
        (r[i].count == r[j].count && FirstIndex(xs, r[i].key) < FirstIndex(xs, r[j].key))
  {
    var r := MostCommon(xs, n);
    forall i, j | 0 <= i < j < |r|
      ensures r[i].count > r[j].count ||
        (r[i].count == r[j].count && FirstIndex(xs, r[i].key) < FirstIndex(xs, r[j].key))
    {
      SortedCounterOrderPair(xs, i, j);
    }
  }

  lemma MostCommonDistinct<T(!new)>(xs: seq<T>, n: Option<nat>)
    ensures Distinct(Keys(MostCommon(xs, n)))
  {
    var r := MostCommon(xs, n);
    forall i, j | 0 <= i < j < |r| ensures Keys(r)[i] != Keys(r)[j] {
      SortedCounterDistinctPair(xs, i, j);
    }
  }

  /** Two rows of the sorted counter hold different elements: a key fixes
      its count, and equal counts have distinct first occurrences. */
  lemma SortedCounterDistinctPair<T(!new)>(xs: seq<T>, i: nat, j: nat)
    requires i < j < |SortDesc(CounterOf(xs))|
    ensures SortDesc(CounterOf(xs))[i].key != SortDesc(CounterOf(xs))[j].key
  {
    SortedCounterOrder(xs);
    SortedCounterRow(xs, i);
    SortedCounterRow(xs, j);
  }

  /** `most_common(n)` leaves an element out only when it keeps `n` rows,
      and every row it keeps occurs more often than the element left out,
      or as often and first seen earlier. */
  lemma MostCommonTop<T(!new)>(xs: seq<T>, n: nat, x: T)
    requires x in xs && x !in Keys(MostCommon(xs, Some(n)))
    ensures var r := MostCommon(xs, Some(n));
      |r| == n && forall i :: 0 <= i < |r| ==> multiset(xs)[x] <= r[i].count
    ensures var r := MostCommon(xs, Some(n));
      forall i :: 0 <= i < |r| ==>
        multiset(xs)[x] < r[i].count ||
        (multiset(xs)[x] == r[i].count && FirstIndex(xs, r[i].key) < FirstIndex(xs, x))
  {
    var all := SortDesc(CounterOf(xs));
    var k := SortedCounterHas(xs, x);
    SortedCounterOrder(xs);
    CutoffRank(xs, all, Top(all, Some(n)), n, x, k, multiset(xs)[x]);
  }

  /** In a table ranked by count and then first occurrence, a key missing
      from its first `n` rows comes after all of them, and they are `n`. */
  lemma CutoffRank<T>(xs: seq<T>, all: seq<Entry<T>>, r: seq<Entry<T>>, n: nat, x: T, k: nat, c: nat)
    requires |r| == (if n < |all| then n else |all|) && forall i :: 0 <= i < |r| ==> r[i] == all[i]
    requires k < |all| && all[k].key == x && all[k].count == c && x !in Keys(r)
    requires forall i, j :: 0 <= i < j < |all| ==>
      all[i].count > all[j].count ||
      (all[i].count == all[j].count && FirstIndex(xs, all[i].key) < FirstIndex(xs, all[j].key))
    ensures |r| == n && forall i :: 0 <= i < |r| ==> c <= r[i].count
    ensures forall i :: 0 <= i < |r| ==>
      c < r[i].count || (c == r[i].count && FirstIndex(xs, r[i].key) < FirstIndex(xs, x))
  {
    forall i | 0 <= i < |r| ensures r[i].key != x {
      assert Keys(r)[i] == r[i].key;
    }
    forall i | 0 <= i < |r|
      ensures c < r[i].count || (c == r[i].count && FirstIndex(xs, r[i].key) < FirstIndex(xs, x))
    {
      assert r[i] == all[i];
    }
  }

  /** Where an element of `xs` sits in the sorted counter. */
  lemma SortedCounterHas<T(!new)>(xs: seq<T>, x: T) returns (k: nat)
    requires x in xs
    ensures var all := SortDesc(CounterOf(xs));
      k < |all| && all[k].key == x && all[k].count == multiset(xs)[x]
  {
    var all := SortDesc(CounterOf(xs));
    SortDescKeys(CounterOf(xs), x);
    k :| 0 <= k < |all| && Keys(all)[k] == x;
    SortedCounterRow(xs, k);
  }

  lemma SortedCounterRow<T(!new)>(xs: seq<T>, i: nat)
    requires i < |SortDesc(CounterOf(xs))|
    ensures var all := SortDesc(CounterOf(xs));
      all[i].key in xs && all[i].count == multiset(xs)[all[i].key] > 0
  {
    var es := CounterOf(xs);
    var k := SortDescRow(es, i);
    CountOfAt(es, k);
    assert Keys(es)[k] == es[k].key;
  }

  /** Every row of the sorted table is a row of the input. */
  lemma SortDescRow<T>(es: seq<Entry<T>>, i: nat) returns (k: nat)
    requires i < |SortDesc(es)|
    ensures k < |es| && es[k] == SortDesc(es)[i]
  {
    var all := SortDesc(es);
    assert all[i] in multiset(es) by { assert all[i] in multiset(all); }
    k :| 0 <= k < |es| && es[k] == all[i];
  }

  lemma SortedCounterOrderPair<T(!new)>(xs: seq<T>, i: nat, j: nat)
    requires i < j < |SortDesc(CounterOf(xs))|
    ensures var all := SortDesc(CounterOf(xs));
      all[i].count > all[j].count ||
      (all[i].count == all[j].count && FirstIndex(xs, all[i].key) < FirstIndex(xs, all[j].key))
  {
    SortedCounterOrder(xs);
  }

  lemma SortedCounterPair<T(!new)>(xs: seq<T>, i: nat, j: nat)
    requires i < j < |SortDesc(CounterOf(xs))|
    ensures var all := SortDesc(CounterOf(xs));
      all[i].count >= all[j].count
  {
    SortedCounterOrder(xs);
  }

  /** `most_common()` without a limit: every element of `xs` has a row and
      the counts add up to `|xs|`. */
  lemma MostCommonAll<T(!new)>(xs: seq<T>)
    ensures var r := MostCommon(xs, None);
      (forall x :: x in Keys(r) <==> x in xs) && SumCounts(r) == |xs|
  {
    SortedCounter(xs);
  }

  // ---------------------------------------------------------------------
  // groupby(key).count(): one row per distinct key, keys ascending.

  /** Counts one more `k` in a table whose keys ascend under `lt`. */
  function InsertKey<T(==,!new)>(lt: (T, T) -> bool, k: T, gs: seq<Entry<T>>): (r: seq<Entry<T>>)
    ensures forall y :: y in Keys(r) <==> y in Keys(gs) || y == k
    ensures SumCounts(r) == SumCounts(gs) + 1
  {
    if gs == [] then [Entry(k, 1)]
    else if gs[0].key == k then
      assert Keys(gs) == [k] + Keys(gs[1..]);
      assert Keys([Entry(k, gs[0].count + 1)] + gs[1..]) == [k] + Keys(gs[1..]);
      [Entry(k, gs[0].count + 1)] + gs[1..]
    else if lt(k, gs[0].key) then
      assert Keys([Entry(k, 1)] + gs) == [k] + Keys(gs);
      [Entry(k, 1)] + gs
    else
      var r := [gs[0]] + InsertKey(lt, k, gs[1..]);
      assert Keys(gs) == [gs[0].key] + Keys(gs[1..]);
      assert Keys(r) == [gs[0].key] + Keys(InsertKey(lt, k, gs[1..]));
      r
  }

  /** The rows of `groupby(key).count()` over the keys `ks`. */
  function GroupCount<T(==,!new)>(lt: (T, T) -> bool, ks: seq<T>): (r: seq<Entry<T>>)
    ensures forall y :: y in Keys(r) <==> y in ks
    ensures SumCounts(r) == |ks|
  {
    if ks == [] then [] else InsertKey(lt, ks[0], GroupCount(lt, ks[1..]))
  }

  lemma InsertKeySpec<T(!new)>(lt: (T, T) -> bool, k: T, gs: seq<Entry<T>>)
    requires StrictTotalOrder(lt)
    requires StrictlyAscending(lt, Keys(gs))
    ensures StrictlyAscending(lt, Keys(InsertKey(lt, k, gs)))
    ensures forall y :: CountOf(InsertKey(lt, k, gs), y) == CountOf(gs, y) + (if y == k then 1 else 0)
    decreases |gs|
  {
    var r := InsertKey(lt, k, gs);
    if gs == [] {
    } else if gs[0].key == k {
      assert Keys(r) == [k] + Keys(gs)[1..];
      assert Keys(gs) == [k] + Keys(gs)[1..];
    } else if lt(k, gs[0].key) {
      assert Keys(r) == [k] + Keys(gs);
      forall i | 0 <= i < |gs| ensures lt(k, Keys(gs)[i]) {
        if i > 0 { assert lt(Keys(gs)[0], Keys(gs)[i]); }
      }
      assert k !in Keys(gs);
      CountOfAbsent(gs, k);
    } else {
      var tl := gs[1..];
      InsertKeySpec(lt, k, tl);
      var t := InsertKey(lt, k, tl);
      assert r == [gs[0]] + t;
      assert gs == [gs[0]] + tl;
      BehindCounts(gs[0], t, tl, k);
      assert Keys(r) == [gs[0].key] + Keys(t);
      assert Keys(tl) == Keys(gs)[1..];
      BehindAscending(lt, gs[0].key, Keys(t), Keys(tl), k);
    }
  }

  /** Counting `k` behind a first row with another key leaves that row. */
  lemma BehindCounts<T>(g: Entry<T>, t: seq<Entry<T>>, tl: seq<Entry<T>>, k: T)
    requires g.key != k
    requires forall y :: CountOf(t, y) == CountOf(tl, y) + (if y == k then 1 else 0)
    ensures forall y :: CountOf([g] + t, y) == CountOf([g] + tl, y) + (if y == k then 1 else 0)
  {
    assert ([g] + t)[1..] == t && ([g] + tl)[1..] == tl;
  }

  /** A key below every key of the rest stays first. */
  lemma BehindAscending<T>(lt: (T, T) -> bool, g: T, ks: seq<T>, prev: seq<T>, k: T)
    requires lt(g, k) && forall j :: 0 <= j < |prev| ==> lt(g, prev[j])
    requires StrictlyAscending(lt, ks)
    requires forall y :: y in ks <==> y in prev || y == k
    ensures StrictlyAscending(lt, [g] + ks)
  {
    var r := [g] + ks;
    forall i, j | 0 <= i < j < |r| ensures lt(r[i], r[j]) {
      if i == 0 {
        var y := ks[j - 1];
        assert y in ks;
        if y != k {
          var m :| 0 <= m < |prev| && prev[m] == y;
        }
      } else {
        assert r[i] == ks[i - 1] && r[j] == ks[j - 1];
      }
    }
  }

  /** `groupby(key).count()` lists each key once, ascending, with its number
      of occurrences. */
  lemma {:induction false} GroupCountSpec<T(!new)>(lt: (T, T) -> bool, ks: seq<T>)
    requires StrictTotalOrder(lt)
    ensures StrictlyAscending(lt, Keys(GroupCount(lt, ks)))
    ensures forall y :: CountOf(GroupCount(lt, ks), y) == multiset(ks)[y]
  {
    if ks != [] {
      GroupCountSpec(lt, ks[1..]);
      InsertKeySpec(lt, ks[0], GroupCount(lt, ks[1..]));
      assert ks == [ks[0]] + ks[1..];
    }
  }

  /** Keys ascending under a strict order are distinct. */
  lemma AscendingDistinct<T(!new)>(lt: (T, T) -> bool, ks: seq<T>)
    requires StrictTotalOrder(lt) && StrictlyAscending(lt, ks)
    ensures Distinct(ks)
  {
    forall i, j | 0 <= i < j < |ks| ensures ks[i] != ks[j] {
      assert lt(ks[i], ks[j]);
    }
  }
}
