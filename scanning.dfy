/** The left-to-right scan behind Python's `re.split` and `re.findall`, for
    any pattern that only matches non-empty text. The pattern is given by
    its matcher: `m(s, i)` is where a match starting at position `i` of `s`
    ends, or `None` when none starts there. */
module Scanning {
  import opened Wrappers

  /** A matcher for a pattern that never matches the empty string. */
  ghost predicate Advances(m: (string, nat) -> Option<nat>) {
    forall s: string, i: nat :: i <= |s| && m(s, i).Some? ==> i < m(s, i).value <= |s|
  }

  datatype Span = Span(start: nat, end: nat)

  /** Spans in order, non-overlapping, between `from` and `n`. */
  predicate Ordered(ms: seq<Span>, from: nat, n: nat)
    decreases |ms|
  {
    ms == [] || (from <= ms[0].start < ms[0].end <= n && Ordered(ms[1..], ms[0].end, n))
  }

  /** Try each position from `i` on; on a match, record it and resume after it. */
  function Scan(m: (string, nat) -> Option<nat>, s: string, i: nat): (ms: seq<Span>)
    requires Advances(m) && i <= |s|
    ensures ms != [] ==> i <= ms[0].start < ms[0].end <= |s|
    ensures Ordered(ms, i, |s|)
    decreases |s| - i
  {
    if i == |s| then []
    else match m(s, i)
      case Some(e) => [Span(i, e)] + Scan(m, s, e)
      case None => Scan(m, s, i + 1)
  }

  /** No match starts at any position in `lo..hi`. */
  ghost predicate NoMatchIn(m: (string, nat) -> Option<nat>, s: string, lo: nat, hi: nat) {
    forall p: nat :: lo <= p < hi ==> m(s, p).None?
  }

  /** `ms` lists, from position `from` on, the leftmost non-overlapping
      matches: no match starts in a gap before a span or after the last one,
      and each span is the match that starts where it starts. */
  ghost predicate Leftmost(m: (string, nat) -> Option<nat>, s: string, ms: seq<Span>, from: nat)
    decreases |ms|
  {
    if ms == [] then NoMatchIn(m, s, from, |s|)
    else
      from <= ms[0].start <= |s| &&
      NoMatchIn(m, s, from, ms[0].start) &&
      m(s, ms[0].start) == Some(ms[0].end) &&
      Leftmost(m, s, ms[1..], ms[0].end)
  }

  /** The scan yields the leftmost non-overlapping matches: in particular no
      match starts inside the text between two matches. */
  lemma {:induction false} ScanLeftmost(m: (string, nat) -> Option<nat>, s: string, i: nat)
    requires Advances(m) && i <= |s|
    ensures Leftmost(m, s, Scan(m, s, i), i)
    decreases |s| - i
  {
    if i < |s| {
      match m(s, i)
      case Some(e) =>
        ScanLeftmost(m, s, e);
      case None =>
        ScanLeftmost(m, s, i + 1);
        var ms := Scan(m, s, i + 1);
        assert ms == Scan(m, s, i);
    }
  }

  /** And they are the only such list: the leftmost non-overlapping matches
      are exactly what the scan finds. */
  lemma {:induction false} LeftmostUnique(m: (string, nat) -> Option<nat>, s: string, ms: seq<Span>, i: nat)
    requires Advances(m) && i <= |s|
    requires Leftmost(m, s, ms, i)
    ensures ms == Scan(m, s, i)
    decreases |s| - i
  {
    if i == |s| {
    } else if ms == [] {
      assert m(s, i).None?;
      LeftmostUnique(m, s, ms, i + 1);
    } else if ms[0].start == i {
      LeftmostUnique(m, s, ms[1..], ms[0].end);
      assert ms == [ms[0]] + ms[1..];
    } else {
      assert m(s, i).None?;
      LeftmostUnique(m, s, ms, i + 1);
    }
  }

  /** Each span of a leftmost list is a match where it starts. */
  lemma {:induction false} LeftmostAt(m: (string, nat) -> Option<nat>, s: string, ms: seq<Span>, from: nat, k: nat)
    requires Leftmost(m, s, ms, from) && k < |ms|
    ensures ms[k].start <= |s| && m(s, ms[k].start) == Some(ms[k].end)
    decreases k
  {
    if k > 0 {
      LeftmostAt(m, s, ms[1..], ms[0].end, k - 1);
    }
  }

  /** The matched texts, in order (`re.findall`). */
  function Matched(s: string, ms: seq<Span>, from: nat): (st: seq<string>)
    requires Ordered(ms, from, |s|)
    ensures |st| == |ms|
    decreases |ms|
  {
    if ms == [] then [] else [s[ms[0].start..ms[0].end]] + Matched(s, ms[1..], ms[0].end)
  }

  /** The texts around the matches (`re.split`): the text before the first
      match, then the text after each match up to the next one. */
  function Pieces(s: string, ms: seq<Span>, from: nat): (fr: seq<string>)
    requires from <= |s| && Ordered(ms, from, |s|)
    ensures |fr| == |ms| + 1
    decreases |ms|
  {
    if ms == [] then [s[from..]]
    else [s[from..ms[0].start]] + Pieces(s, ms[1..], ms[0].end)
  }

  /** Each matched text followed by the piece after it, all concatenated. */
  function Rejoin(matched: seq<string>, pieces: seq<string>): string
    requires |matched| == |pieces|
  {
    if matched == [] then [] else matched[0] + pieces[0] + Rejoin(matched[1..], pieces[1..])
  }

  /** Nothing is lost or reordered: the first piece, then each match
      followed by the piece after it, is the text. */
  lemma {:induction false} PiecesRoundTrip(s: string, ms: seq<Span>, from: nat)
    requires from <= |s| && Ordered(ms, from, |s|)
    ensures Pieces(s, ms, from)[0] + Rejoin(Matched(s, ms, from), Pieces(s, ms, from)[1..]) == s[from..]
    decreases |ms|
  {
    if ms != [] {
      var a, e := ms[0].start, ms[0].end;
      var fr := Pieces(s, ms[1..], e);
      var st := Matched(s, ms[1..], e);
      PiecesRoundTrip(s, ms[1..], e);
      assert Pieces(s, ms, from)[1..] == fr;
      assert Rejoin(Matched(s, ms, from), fr) == s[a..e] + fr[0] + Rejoin(st, fr[1..]);
      assert s[from..] == s[from..a] + s[a..e] + s[e..];
    }
  }

  /** The `k`-th matched text is the text of the `k`-th span. */
  lemma {:induction false} MatchedAt(s: string, ms: seq<Span>, from: nat, k: nat)
    requires Ordered(ms, from, |s|) && k < |ms|
    ensures ms[k].start <= ms[k].end <= |s|
    ensures Matched(s, ms, from)[k] == s[ms[k].start..ms[k].end]
    decreases k
  {
    if k > 0 {
      MatchedAt(s, ms[1..], ms[0].end, k - 1);
    }
  }

  /** The piece after the `k`-th match runs from its end to the start of the
      next match, or to the end of the text after the last one. */
  lemma {:induction false} PiecesAt(s: string, ms: seq<Span>, from: nat, k: nat)
    requires from <= |s| && Ordered(ms, from, |s|) && k < |ms|
    ensures var stop := if k + 1 < |ms| then ms[k + 1].start else |s|;
      ms[k].start <= ms[k].end <= stop <= |s| && Pieces(s, ms, from)[k + 1] == s[ms[k].end..stop]
    decreases k
  {
    var rest := Pieces(s, ms[1..], ms[0].end);
    assert Pieces(s, ms, from)[k + 1] == rest[k];
    if k > 0 {
      PiecesAt(s, ms[1..], ms[0].end, k - 1);
    }
  }
}
