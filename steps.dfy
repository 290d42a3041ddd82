/** A pattern made of steps matched one after the other, each by a field
    reader `f`: `f(s, p, st)` is the position just past step `st` matched at
    position `p` of `s`, or `None`. The results here hold for every reader
    that consumes text and depends only on the text it consumes. */
module Steps {
  import opened Wrappers

  /** A reader that, when it matches, consumes at least one character. */
  ghost predicate StepsAdvance<S(!new)>(f: (string, nat, S) -> Option<nat>) {
    forall s: string, p: nat, st: S :: p <= |s| && f(s, p, st).Some? ==> p < f(s, p, st).value <= |s|
  }

  /** A reader that sees only what it consumes: a match inside a window of
      the text is found, shifted, in the window alone. */
  ghost predicate StepsLocal<S(!new)>(f: (string, nat, S) -> Option<nat>) {
    forall s: string, lo: nat, hi: nat, p: nat, st: S {:trigger f(s, p, st), s[lo..hi]} ::
      lo <= p <= hi <= |s| && f(s, p, st).Some? && f(s, p, st).value <= hi ==>
        f(s[lo..hi], p - lo, st) == Some(f(s, p, st).value - lo)
  }

  /** The steps matched one after the other from `p`: the position after
      each of them. */
  function Ends<S(!new)>(f: (string, nat, S) -> Option<nat>, s: string, p: nat, steps: seq<S>): (r: Option<seq<nat>>)
    requires StepsAdvance(f) && p <= |s|
    ensures r.Some? ==> |r.value| == |steps|
    ensures r.Some? ==> forall k :: 0 <= k < |steps| ==> p < r.value[k] <= |s|
    decreases |steps|
  {
    if steps == [] then Some([])
    else match f(s, p, steps[0])
      case None => None
      case Some(q) =>
        match Ends(f, s, q, steps[1..])
        case None => None
        case Some(rest) => Some([q] + rest)
  }

  lemma EndsUncons<S(!new)>(f: (string, nat, S) -> Option<nat>, s: string, p: nat, steps: seq<S>)
    requires StepsAdvance(f) && p <= |s| && steps != [] && Ends(f, s, p, steps).Some?
    ensures f(s, p, steps[0]) == Some(Ends(f, s, p, steps).value[0])
    ensures Ends(f, s, Ends(f, s, p, steps).value[0], steps[1..]) == Some(Ends(f, s, p, steps).value[1..])
  {
  }

  lemma EndsCons<S(!new)>(f: (string, nat, S) -> Option<nat>, s: string, p: nat, steps: seq<S>, q: nat, rest: seq<nat>)
    requires StepsAdvance(f) && p <= q <= |s| && steps != []
    requires f(s, p, steps[0]) == Some(q)
    requires Ends(f, s, q, steps[1..]) == Some(rest)
    ensures Ends(f, s, p, steps) == Some([q] + rest)
  {
  }

  /** Each step ends strictly after the one before. */
  lemma {:induction false} EndsAscending<S(!new)>(f: (string, nat, S) -> Option<nat>, s: string, p: nat, steps: seq<S>)
    requires StepsAdvance(f) && p <= |s| && Ends(f, s, p, steps).Some?
    ensures forall j, k :: 0 <= j < k < |steps| ==> Ends(f, s, p, steps).value[j] < Ends(f, s, p, steps).value[k]
    decreases |steps|
  {
    if steps != [] {
      var es := Ends(f, s, p, steps).value;
      var q := es[0];
      EndsUncons(f, s, p, steps);
      EndsAscending(f, s, q, steps[1..]);
      assert forall k :: 1 <= k < |es| ==> es[k] == Ends(f, s, q, steps[1..]).value[k - 1];
    }
  }

  /** Matching the steps inside `s[lo..hi]` finds the same positions,
      shifted, as long as every step ends within the window. */
  lemma {:induction false} EndsLocal<S(!new)>(f: (string, nat, S) -> Option<nat>, s: string, lo: nat, hi: nat, p: nat, steps: seq<S>)
    requires StepsAdvance(f) && StepsLocal(f)
    requires lo <= p <= hi <= |s|
    requires Ends(f, s, p, steps).Some?
    requires forall k :: 0 <= k < |steps| ==> Ends(f, s, p, steps).value[k] <= hi
    ensures Ends(f, s[lo..hi], p - lo, steps).Some?
    ensures forall k :: 0 <= k < |steps| ==>
      Ends(f, s[lo..hi], p - lo, steps).value[k] + lo == Ends(f, s, p, steps).value[k]
    decreases |steps|
  {
    if steps != [] {
      var es := Ends(f, s, p, steps).value;
      EndsUncons(f, s, p, steps);
      var q, rest := es[0], es[1..];
      assert f(s[lo..hi], p - lo, steps[0]) == Some(q - lo);
      assert forall k :: 0 <= k < |rest| ==> rest[k] == es[k + 1];
      EndsLocal(f, s, lo, hi, q, steps[1..]);
      var rest' := Ends(f, s[lo..hi], q - lo, steps[1..]).value;
      EndsCons(f, s[lo..hi], p - lo, steps, q - lo, rest');
    }
  }
}
