/** Character classes, decimal numerals, Python's string order, whitespace
    tokenisation (`str.split()` with no argument) and substring search
    (`str.split(sep, 1)`), on strings as sequences of Unicode characters. */
module Text {
  import opened Wrappers
  import opened Orders

  /** The regex class `\d`, restricted to ASCII digits (Python also accepts
      other Unicode decimal digits). */
  predicate IsDigit(c: char) {
    '0' <= c <= '9'
  }

  /** Python's notion of whitespace for `str`: the characters matched by the
      regex class `\s` and used as separators by `str.split()`. */
  const Whitespace: set<char> := {
    '\t', '\n', '\U{b}', '\U{c}', '\r', '\U{1c}', '\U{1d}', '\U{1e}', '\U{1f}', ' ',
    '\U{85}', '\U{a0}', '\U{1680}',
    '\U{2000}', '\U{2001}', '\U{2002}', '\U{2003}', '\U{2004}', '\U{2005}',
    '\U{2006}', '\U{2007}', '\U{2008}', '\U{2009}', '\U{200a}',
    '\U{2028}', '\U{2029}', '\U{202f}', '\U{205f}', '\U{3000}'}

  predicate IsSpace(c: char) {
    c in Whitespace
  }

  predicate AllDigits(s: string) {
    forall i :: 0 <= i < |s| ==> IsDigit(s[i])
  }

  /** Length of the run of digits that starts at position `p`. */
  function DigitRun(s: string, p: nat): (r: nat)
    requires p <= |s|
    ensures p + r <= |s|
    ensures p + r == |s| || !IsDigit(s[p + r])
    decreases |s| - p
  {
    if p < |s| && IsDigit(s[p]) then 1 + DigitRun(s, p + 1) else 0
  }

  /** The run is made of digits: it is the longest digit string at `p`. */
  lemma {:induction false} DigitRunDigits(s: string, p: nat)
    requires p <= |s|
    ensures forall j :: p <= j < p + DigitRun(s, p) ==> IsDigit(s[j])
    decreases |s| - p
  {
    if p < |s| && IsDigit(s[p]) {
      DigitRunDigits(s, p + 1);
    }
  }

  // ---------------------------------------------------------------------
  // Decimal numerals

  function DigitChar(d: nat): (c: char)
    requires d < 10
    ensures IsDigit(c)
  {
    "0123456789"[d]
  }

  /** The value of a digit character (a non-digit, which the callers never
      pass, counts as 0). */
  function DigitOf(c: char): (d: nat)
    ensures d < 10
    ensures d == 0 <==> c == '0' || !IsDigit(c)
  {
    if IsDigit(c) then (c - '0') as nat else 0
  }

  /** The value of a string of decimal digits (leading zeros allowed, as in
      Python's `int("07")`). */
  function DecimalValue(s: string): nat
  {
    if s == [] then 0
    else DecimalValue(s[..|s| - 1]) * 10 + DigitOf(s[|s| - 1])
  }

  /** Python's `str(n)` for a non-negative integer. */
  function NatToString(n: nat): (s: string)
    ensures |s| > 0 && AllDigits(s)
    ensures n > 0 ==> s[0] != '0'
  {
    if n < 10 then [DigitChar(n)] else NatToString(n / 10) + [DigitChar(n % 10)]
  }

  /** Reading back what `str(n)` writes gives `n`. */
  lemma {:induction false} NatToStringRoundTrip(n: nat)
    ensures DecimalValue(NatToString(n)) == n
  {
    var s := NatToString(n);
    if n >= 10 {
      NatToStringRoundTrip(n / 10);
      assert s[..|s| - 1] == NatToString(n / 10);
    }
  }

  /** Two digit strings with no leading zero of the same value are equal;
      together with the round trip, `str` is injective. */
  lemma NatToStringInjective(m: nat, n: nat)
    requires NatToString(m) == NatToString(n)
    ensures m == n
  {
    NatToStringRoundTrip(m);
    NatToStringRoundTrip(n);
  }

  lemma {:induction false} DecimalValueBound(s: string)
    ensures |s| == 1 ==> DecimalValue(s) <= 9
    ensures |s| == 2 ==> DecimalValue(s) <= 99
  {
    if |s| == 1 {
      assert s[..0] == [];
    } else if |s| == 2 {
      assert s[..1][..0] == [];
      assert DecimalValue(s[..1]) == DigitOf(s[0]);
    }
  }

  // ---------------------------------------------------------------------
  // Python's string comparison: lexicographic by code point, a proper
  // prefix first.

  predicate StringLess(a: string, b: string) {
    if a == [] then b != []
    else if b == [] then false
    else if a[0] != b[0] then a[0] < b[0]
    else StringLess(a[1..], b[1..])
  }

  lemma {:induction false} StringLessIrreflexive(a: string)
    ensures !StringLess(a, a)
  {
    if a != [] { StringLessIrreflexive(a[1..]); }
  }

  lemma {:induction false} StringLessTransitive(a: string, b: string, c: string)
    requires StringLess(a, b) && StringLess(b, c)
    ensures StringLess(a, c)
  {
    if a != [] && a[0] == b[0] && b[0] == c[0] {
      StringLessTransitive(a[1..], b[1..], c[1..]);
    }
  }

  lemma {:induction false} StringLessTotal(a: string, b: string)
    requires a != b
    ensures StringLess(a, b) || StringLess(b, a)
  {
    if a != [] && b != [] && a[0] == b[0] {
      assert a == [a[0]] + a[1..] && b == [b[0]] + b[1..];
      StringLessTotal(a[1..], b[1..]);
    }
  }

  /** The order Python sorts strings by is a strict total order. */
  lemma StringLessOrder()
    ensures StrictTotalOrder(StringLess)
  {
    forall a ensures !StringLess(a, a) { StringLessIrreflexive(a); }
    forall a, b, c | StringLess(a, b) && StringLess(b, c) ensures StringLess(a, c) {
      StringLessTransitive(a, b, c);
    }
    forall a, b | a != b ensures StringLess(a, b) || StringLess(b, a) {
      StringLessTotal(a, b);
    }
  }

  // ---------------------------------------------------------------------
  // Substring search: `s.split(sep, 1)` splits at the first occurrence.

  predicate OccursAt(s: string, sep: string, k: nat) {
    k + |sep| <= |s| && s[k..k + |sep|] == sep
  }

  /** Index of the first occurrence of a non-empty `sep` at or after `i`. */
  function FindFrom(s: string, sep: string, i: nat): (r: Option<nat>)
    requires |sep| > 0
    ensures r.Some? ==> i <= r.value && OccursAt(s, sep, r.value)
    ensures r.Some? ==> forall k :: i <= k < r.value ==> !OccursAt(s, sep, k)
    ensures r.None? ==> forall k :: i <= k ==> !OccursAt(s, sep, k)
    decreases |s| - i
  {
    if i + |sep| > |s| then None
    else if s[i..i + |sep|] == sep then Some(i)
    else FindFrom(s, sep, i + 1)
  }

  /** Index of the first occurrence of a non-empty `sep` in `s`. */
  function Find(s: string, sep: string): (r: Option<nat>)
    requires |sep| > 0
    ensures r.Some? ==> OccursAt(s, sep, r.value)
    ensures r.Some? ==> forall k: nat :: k < r.value ==> !OccursAt(s, sep, k)
    ensures r.None? ==> forall k :: !OccursAt(s, sep, k)
  {
    FindFrom(s, sep, 0)
  }

  /** An occurrence inside a prefix is an occurrence in the whole string. */
  lemma OccursInPrefix(s: string, sep: string, n: nat, k: nat)
    requires n <= |s| && OccursAt(s[..n], sep, k)
    ensures OccursAt(s, sep, k)
  {
    assert s[..n][k..k + |sep|] == s[k..k + |sep|];
  }

  /** No occurrence of `sep` lies wholly before its first occurrence. */
  lemma BeforeFirst(s: string, sep: string, k: nat)
    requires |sep| > 0 && Find(s, sep) == Some(k)
    ensures forall j :: !OccursAt(s[..k], sep, j)
  {
    forall j | OccursAt(s[..k], sep, j) ensures false {
      OccursInPrefix(s, sep, k, j);
    }
  }

  /** `s.split(sep, 1)`: the text before the first `sep` and the text after
      it, or `[s]` alone when `sep` does not occur. */
  function SplitOnce(s: string, sep: string): (parts: seq<string>)
    requires |sep| > 0
    ensures 1 <= |parts| <= 2
    ensures |parts| == 1 ==> parts[0] == s && forall k :: !OccursAt(s, sep, k)
    ensures |parts| == 2 ==> parts[0] + sep + parts[1] == s && forall k :: !OccursAt(parts[0], sep, k)
  {
    match Find(s, sep)
    case None => [s]
    case Some(k) =>
      BeforeFirst(s, sep, k);
      assert s[..k] + sep + s[k + |sep|..] == s;
      [s[..k], s[k + |sep|..]]
  }

  /** The number a string starts with: the value of its leading digits. */
  function LeadingNumber(s: string): nat {
    DecimalValue(s[..DigitRun(s, 0)])
  }

  /** A digit run is exactly as long as the digits that start at `p`. */
  lemma {:induction false} DigitRunExact(s: string, p: nat, n: nat)
    requires p <= n <= |s|
    requires forall j :: p <= j < n ==> IsDigit(s[j])
    requires n == |s| || !IsDigit(s[n])
    ensures DigitRun(s, p) == n - p
    decreases n - p
  {
    if p < n {
      DigitRunExact(s, p + 1, n);
    }
  }

  /** `str(n)` followed by a non-digit reads back as `n`. */
  lemma LeadingNumberOf(n: nat, rest: string)
    requires rest == [] || !IsDigit(rest[0])
    ensures LeadingNumber(NatToString(n) + rest) == n
  {
    var w := NatToString(n);
    var s := w + rest;
    DigitRunExact(s, 0, |w|);
    assert s[..|w|] == w;
    NatToStringRoundTrip(n);
  }

  // ---------------------------------------------------------------------
  // Whitespace tokens: `s.split()`.

  predicate NoSpace(w: string) {
    forall i :: 0 <= i < |w| ==> !IsSpace(w[i])
  }

  /** Length of the longest prefix of `s` free of whitespace. */
  function WordLength(s: string): (n: nat)
    ensures n <= |s| && NoSpace(s[..n])
    ensures n < |s| ==> IsSpace(s[n])
  {
    if s == [] || IsSpace(s[0]) then 0
    else
      var n := 1 + WordLength(s[1..]);
      assert s[..n] == [s[0]] + s[1..][..n - 1];
      n
  }

  /** The maximal runs of non-whitespace characters of `s`, left to right. */
  function Tokens(s: string): (ws: seq<string>)
    ensures forall k :: 0 <= k < |ws| ==> |ws[k]| > 0 && NoSpace(ws[k])
    decreases |s|
  {
    if s == [] then []
    else if IsSpace(s[0]) then Tokens(s[1..])
    else
      var n := WordLength(s);
      [s[..n]] + Tokens(s[n..])
  }

  function Concat(ws: seq<string>): string {
    if ws == [] then [] else ws[0] + Concat(ws[1..])
  }

  /** `s` with its whitespace characters removed. */
  function DropSpaces(s: string): string {
    if s == [] then []
    else (if IsSpace(s[0]) then [] else [s[0]]) + DropSpaces(s[1..])
  }

  lemma {:induction false} DropSpacesAppend(a: string, b: string)
    ensures DropSpaces(a + b) == DropSpaces(a) + DropSpaces(b)
  {
    if a == [] {
      assert a + b == b;
    } else {
      assert (a + b)[0] == a[0] && (a + b)[1..] == a[1..] + b;
      DropSpacesAppend(a[1..], b);
    }
  }

  lemma {:induction false} DropSpacesOfWord(w: string)
    requires NoSpace(w)
    ensures DropSpaces(w) == w
  {
    if w != [] { DropSpacesOfWord(w[1..]); }
  }

  /** The tokens hold exactly the non-whitespace characters of `s`, in order. */
  lemma {:induction false} TokensCoverText(s: string)
    ensures Concat(Tokens(s)) == DropSpaces(s)
    decreases |s|
  {
    if s != [] {
      if IsSpace(s[0]) {
        TokensCoverText(s[1..]);
      } else {
        var n := WordLength(s);
        TokensCoverText(s[n..]);
        assert s == s[..n] + s[n..];
        DropSpacesAppend(s[..n], s[n..]);
        DropSpacesOfWord(s[..n]);
        assert ([s[..n]] + Tokens(s[n..]))[1..] == Tokens(s[n..]);
      }
    }
  }

  /** Words joined by single spaces. */
  function JoinWords(ws: seq<string>): string {
    if ws == [] then [] else if |ws| == 1 then ws[0] else ws[0] + " " + JoinWords(ws[1..])
  }

  lemma {:induction false} WordLengthOfWord(w: string, rest: string)
    requires |w| > 0 && NoSpace(w)
    requires rest == [] || IsSpace(rest[0])
    ensures WordLength(w + rest) == |w|
    decreases |w|
  {
    if |w| > 1 {
      assert (w + rest)[1..] == w[1..] + rest;
      WordLengthOfWord(w[1..], rest);
    }
  }

  /** Splitting words joined by spaces gives the words back. */
  lemma {:induction false} TokensOfJoin(ws: seq<string>)
    requires forall k :: 0 <= k < |ws| ==> |ws[k]| > 0 && NoSpace(ws[k])
    ensures Tokens(JoinWords(ws)) == ws
  {
    if ws != [] {
      var w := ws[0];
      var rest := if |ws| == 1 then [] else " " + JoinWords(ws[1..]);
      assert JoinWords(ws) == w + rest;
      WordLengthOfWord(w, rest);
      assert (w + rest)[..|w|] == w;
      assert (w + rest)[|w|..] == rest;
      if |ws| > 1 {
        TokensOfJoin(ws[1..]);
        assert rest[1..] == JoinWords(ws[1..]);
      }
    }
  }
}
