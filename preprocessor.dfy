/** The chat-log parser of preprocessor.py: the timestamp-prefix pattern
    `\d{1,2}/\d{1,2}/\d{2,4},\s\d{1,2}:\d{2}\s-\s`, the leftmost scan behind
    `re.split` and `re.findall`, the `'%m/%d/%y, %H:%M - '` timestamp parse
    with `errors='coerce'`, the split of each message at its first `": "`,
    the derived date columns and the hour-period labels. */
module Preprocessor {
  import opened Wrappers
  import opened Text
  import opened Calendar
  import opened Scanning
  import opened Steps

  // ---------------------------------------------------------------------
  // The timestamp-prefix pattern. Each digit run in it is followed by a
  // character that is not a digit, so at a given position the pattern
  // matches in at most one way: a run `\d{lo,hi}` followed by its separator
  // matches exactly when the whole run of digits there has a length in
  // lo..hi and the character after it is the separator.

  /** What may follow a digit run: a literal character, or `\s`. */
  datatype Sep = Lit(c: char) | Space

  predicate SepMatches(sep: Sep, c: char) {
    match sep
    case Lit(l) => c == l
    case Space => IsSpace(c)
  }

  /** `\d{lo,hi}` then `sep` at position `p`: the position after `sep`. */
  function Field(s: string, p: nat, lo: nat, hi: nat, sep: Sep): (r: Option<nat>)
    requires p <= |s|
    ensures r.Some? ==> p + lo + 1 <= r.value <= p + hi + 1 && r.value <= |s|
  {
    var n := DigitRun(s, p);
    if lo <= n <= hi && p + n < |s| && SepMatches(sep, s[p + n]) then Some(p + n + 1) else None
  }

  /** One element of the pattern: `\d{lo,hi}` then `sep`. */
  datatype Step = Step(lo: nat, hi: nat, sep: Sep)

  /** The field reader of one step. */
  function FieldAt(s: string, p: nat, st: Step): Option<nat> {
    if p <= |s| then Field(s, p, st.lo, st.hi, st.sep) else None
  }

  lemma FieldAtAdvances()
    ensures StepsAdvance(FieldAt)
  {
  }

  /** `\d{1,2}/\d{1,2}/\d{2,4},\s\d{1,2}:\d{2}\s-\s` as a list of steps;
      the bare `\s`, `-` and `\s` are steps with an empty digit run. */
  const Pattern: seq<Step> := [
    Step(1, 2, Lit('/')), Step(1, 2, Lit('/')), Step(2, 4, Lit(',')), Step(0, 0, Space),
    Step(1, 2, Lit(':')), Step(2, 2, Space), Step(0, 0, Lit('-')), Step(0, 0, Space)]

  /** The digit fields of a matched prefix and the position just past it. */
  datatype Stamp = Stamp(month: string, day: string, year: string, hour: string, minute: string, end: nat)

  /** The field widths the pattern allows. */
  predicate WellFormedStamp(st: Stamp) {
    1 <= |st.month| <= 2 && 1 <= |st.day| <= 2 && 2 <= |st.year| <= 4 &&
    1 <= |st.hour| <= 2 && |st.minute| == 2
  }

  /** The fields of a match starting at `i` whose steps end at `es`. */
  function StampOf(s: string, i: nat, es: seq<nat>): (st: Stamp)
    requires |es| == 8 && i < es[0] < es[1] < es[2] < es[3] < es[4] < es[5] < es[6] < es[7] <= |s|
  {
    Stamp(s[i..es[0] - 1], s[es[0]..es[1] - 1], s[es[1]..es[2] - 1], s[es[3]..es[4] - 1], s[es[4]..es[5] - 1], es[7])
  }

  /** The pattern matched at position `i`, if it matches there. */
  function Read(s: string, i: nat): (r: Option<Stamp>)
    requires i <= |s|
    ensures r.Some? ==> i < r.value.end <= |s|
  {
    FieldAtAdvances();
    match Ends(FieldAt, s, i, Pattern)
    case None => None
    case Some(es) =>
      EndsAscending(FieldAt, s, i, Pattern);
      Some(StampOf(s, i, es))
  }

  /** Where a match starting at `i` ends, if one starts there. */
  function MatchEnd(s: string, i: nat): Option<nat> {
    if i > |s| then None
    else match Read(s, i)
      case Some(st) => Some(st.end)
      case None => None
  }

  lemma MatchEndAdvances()
    ensures Advances(MatchEnd)
  {
    forall s: string, i: nat | i <= |s| && MatchEnd(s, i).Some?
      ensures i < MatchEnd(s, i).value <= |s|
    {
      assert Read(s, i).Some?;
    }
  }

  // ---------------------------------------------------------------------
  // `re.split(pattern, data)` and `re.findall(pattern, data)`.

  /** The timestamp prefixes of `data`, as the regex scan finds them. */
  function Spans(data: string): (ms: seq<Span>)
    ensures Ordered(ms, 0, |data|)
  {
    MatchEndAdvances();
    Scan(MatchEnd, data, 0)
  }

  /** The spans are the leftmost non-overlapping timestamp prefixes, and
      no other list is. */
  lemma SpansLeftmost(data: string, ms: seq<Span>)
    ensures Leftmost(MatchEnd, data, ms, 0) <==> ms == Spans(data)
  {
    MatchEndAdvances();
    ScanLeftmost(MatchEnd, data, 0);
    if Leftmost(MatchEnd, data, ms, 0) {
      LeftmostUnique(MatchEnd, data, ms, 0);
    }
  }

  /** `re.findall(pattern, data)`: the timestamp prefixes. */
  function Dates(data: string): (ds: seq<string>)
    ensures |ds| == |Spans(data)|
  {
    Matched(data, Spans(data), 0)
  }

  /** `re.split(pattern, data)[1:]`: the message bodies, one per prefix. */
  function Messages(data: string): (ms: seq<string>)
    ensures |ms| == |Spans(data)|
  {
    Pieces(data, Spans(data), 0)[1..]
  }

  /** Nothing of the input is lost or reordered: the text before the first
      prefix, then each prefix followed by its message body, is the input. */
  lemma ChatRoundTrip(data: string)
    ensures |Dates(data)| == |Messages(data)|
    ensures Pieces(data, Spans(data), 0)[0] + Rejoin(Dates(data), Messages(data)) == data
  {
    PiecesRoundTrip(data, Spans(data), 0);
  }

  // ---------------------------------------------------------------------
  // `pd.to_datetime(..., format='%m/%d/%y, %H:%M - ', errors='coerce')`.
  // The format's fields accept: %m a month 1..12, %d a day 1..31, %y exactly
  // two digits, %H an hour 0..23, %M a minute 00..59; the date must then
  // exist. A text that fails is coerced to a null timestamp (`None`).

  /** `%y`: 69..99 are 1969..1999, 00..68 are 2000..2068. */
  function YearOf(y: string): (r: int)
    requires |y| == 2
    ensures r % 100 == DecimalValue(y) && 1969 <= r <= 2068
  {
    DecimalValueBound(y);
    var v := DecimalValue(y);
    if v <= 68 then 2000 + v else 1900 + v
  }

  /** The timestamp the digit fields of a matched prefix denote, if any. */
  function StampToDateTime(st: Stamp): (r: Option<DateTime>)
    ensures r.Some? ==> ValidDateTime(r.value) && |st.year| == 2
    ensures r.Some? ==> r.value.date.month == DecimalValue(st.month) && r.value.date.day == DecimalValue(st.day)
    ensures r.Some? ==> r.value.date.year == YearOf(st.year)
    ensures r.Some? ==> r.value.hour == DecimalValue(st.hour) && r.value.minute == DecimalValue(st.minute)
  {
    var month, day, hour, minute := DecimalValue(st.month), DecimalValue(st.day), DecimalValue(st.hour), DecimalValue(st.minute);
    if |st.year| != 2 || !(1 <= month <= 12) || !(1 <= day <= 31) || hour > 23 || minute > 59 then None
    else
      var year := YearOf(st.year);
      if day > DaysInMonth(year, month) then None
      else Some(DateTime(Date(year, month, day), hour, minute))
  }

  /** Every well-formed prefix whose fields name an existing date and time
      is parsed; any other is coerced to null. */
  lemma StampValidity(st: Stamp)
    ensures StampToDateTime(st).Some? <==>
      |st.year| == 2 && 1 <= DecimalValue(st.month) <= 12 &&
      1 <= DecimalValue(st.day) <= DaysInMonth(YearOf(st.year), DecimalValue(st.month)) &&
      DecimalValue(st.hour) <= 23 && DecimalValue(st.minute) <= 59
  {
  }

  /** One timestamp text as `to_datetime` parses it: the whole text must
      match the format. */
  function ToDateTime(text: string): (r: Option<DateTime>)
    ensures r.Some? ==> ValidDateTime(r.value)
  {
    match Read(text, 0)
    case None => None
    case Some(st) => if st.end != |text| then None else StampToDateTime(st)
  }

  // Re-reading a matched prefix on its own reads the same fields.

  lemma {:induction false} DigitRunLocal(s: string, lo: nat, hi: nat, p: nat)
    requires lo <= p <= hi <= |s| && p + DigitRun(s, p) < hi
    ensures DigitRun(s[lo..hi], p - lo) == DigitRun(s, p)
    decreases |s| - p
  {
    if IsDigit(s[p]) {
      DigitRunLocal(s, lo, hi, p + 1);
    }
  }

  lemma FieldLocal(s: string, lo: nat, hi: nat, p: nat, a: nat, b: nat, sep: Sep)
    requires lo <= p <= hi <= |s|
    requires Field(s, p, a, b, sep).Some? && Field(s, p, a, b, sep).value <= hi
    ensures Field(s[lo..hi], p - lo, a, b, sep) == Some(Field(s, p, a, b, sep).value - lo)
  {
    DigitRunLocal(s, lo, hi, p);
  }

  lemma FieldAtLocal()
    ensures StepsLocal(FieldAt)
  {
    forall s: string, lo: nat, hi: nat, p: nat, st: Step |
      lo <= p <= hi <= |s| && FieldAt(s, p, st).Some? && FieldAt(s, p, st).value <= hi
      ensures FieldAt(s[lo..hi], p - lo, st) == Some(FieldAt(s, p, st).value - lo)
    {
      FieldLocal(s, lo, hi, p, st.lo, st.hi, st.sep);
    }
  }

  /** `s[lo..hi][x'..y']` is `s[x..y]` for `x = lo + x'` and `y = lo + y'`. */
  lemma SliceOfSlice(s: string, lo: nat, hi: nat, x: nat, y: nat, x': nat, y': nat)
    requires lo <= x <= y <= hi <= |s| && x' == x - lo && y' == y - lo
    ensures s[lo..hi][x'..y'] == s[x..y]
  {
    assert forall j :: 0 <= j < y - x ==> s[lo..hi][x'..y'][j] == s[x..y][j];
  }

  /** The fields read at `i` of `s` within `s[i..hi]`, shifted. */
  lemma StampOfShift(s: string, i: nat, hi: nat, es: seq<nat>, es': seq<nat>)
    requires |es| == 8 && i < es[0] < es[1] < es[2] < es[3] < es[4] < es[5] < es[6] < es[7] == hi <= |s|
    requires |es'| == 8 && forall k :: 0 <= k < 8 ==> es'[k] + i == es[k]
    ensures StampOf(s[i..hi], 0, es') == StampOf(s, i, es).(end := hi - i)
  {
    var t := s[i..hi];
    assert t[0..es'[0] - 1] == s[i..es[0] - 1] by {
      SliceOfSlice(s, i, hi, i, es[0] - 1, 0, es'[0] - 1);
    }
    assert t[es'[0]..es'[1] - 1] == s[es[0]..es[1] - 1] by {
      SliceOfSlice(s, i, hi, es[0], es[1] - 1, es'[0], es'[1] - 1);
    }
    assert t[es'[1]..es'[2] - 1] == s[es[1]..es[2] - 1] by {
      SliceOfSlice(s, i, hi, es[1], es[2] - 1, es'[1], es'[2] - 1);
    }
    assert t[es'[3]..es'[4] - 1] == s[es[3]..es[4] - 1] by {
      SliceOfSlice(s, i, hi, es[3], es[4] - 1, es'[3], es'[4] - 1);
    }
    assert t[es'[4]..es'[5] - 1] == s[es[4]..es[5] - 1] by {
      SliceOfSlice(s, i, hi, es[4], es[5] - 1, es'[4], es'[5] - 1);
    }
  }

  lemma ReadOfEnds(s: string, i: nat)
    requires i <= |s| && StepsAdvance(FieldAt) && Ends(FieldAt, s, i, Pattern).Some?
    ensures var es := Ends(FieldAt, s, i, Pattern).value;
      |es| == 8 && i < es[0] < es[1] < es[2] < es[3] < es[4] < es[5] < es[6] < es[7] <= |s| &&
      (forall k :: 0 <= k < 8 ==> es[k] <= es[7]) &&
      Read(s, i) == Some(StampOf(s, i, es))
  {
    EndsAscending(FieldAt, s, i, Pattern);
  }

  /** A prefix matched at `i` matches on its own, wholly, with the same fields. */
  lemma ReadLocal(s: string, i: nat, st: Stamp)
    requires i <= |s| && Read(s, i) == Some(st)
    ensures i < st.end <= |s| && Read(s[i..st.end], 0) == Some(st.(end := st.end - i))
  {
    FieldAtAdvances();
    var es := Ends(FieldAt, s, i, Pattern).value;
    assert |es| == 8 && i < es[0] < es[1] < es[2] < es[3] < es[4] < es[5] < es[6] < es[7] <= |s|
      && (forall k :: 0 <= k < 8 ==> es[k] <= es[7]) && st == StampOf(s, i, es) by {
      ReadOfEnds(s, i);
    }
    var hi := es[7];
    var t := s[i..hi];
    assert Ends(FieldAt, t, 0, Pattern).Some? && |Ends(FieldAt, t, 0, Pattern).value| == 8
      && forall k :: 0 <= k < 8 ==> Ends(FieldAt, t, 0, Pattern).value[k] + i == es[k] by {
      assert |Pattern| == 8;
      FieldAtLocal();
      EndsLocal(FieldAt, s, i, hi, i, Pattern);
    }
    var es' := Ends(FieldAt, t, 0, Pattern).value;
    assert StampOf(t, 0, es') == st.(end := hi - i) by {
      StampOfShift(s, i, hi, es, es');
    }
    assert Read(t, 0) == Some(StampOf(t, 0, es')) by {
      ReadOfEnds(t, 0);
    }
    assert st.end == hi;
    Conclude(s, i, st, hi, StampOf(t, 0, es'));
  }
  lemma Conclude(s: string, i: nat, st: Stamp, hi: nat, x: Stamp)
    requires i <= hi <= |s| && st.end == hi && Read(s[i..hi], 0) == Some(x) && x == st.(end := hi - i)
    ensures Read(s[i..st.end], 0) == Some(st.(end := st.end - i))
  {}

  /** Each prefix `re.findall` returns is a match at its span, and parses
      to the timestamp its own fields denote, or to null when they name no
      existing date and time. */
  lemma DatesParse(data: string, k: nat)
    requires k < |Dates(data)|
    ensures Spans(data)[k].start <= |data| && Read(data, Spans(data)[k].start).Some?
    ensures ToDateTime(Dates(data)[k]) == StampToDateTime(Read(data, Spans(data)[k].start).value)
  {
    var ms := Spans(data);
    SpansLeftmost(data, ms);
    LeftmostAt(MatchEnd, data, ms, 0, k);
    MatchedAt(data, ms, 0, k);
    ReadLocal(data, ms[k].start, Read(data, ms[k].start).value);
  }

  // ---------------------------------------------------------------------
  // Sender and text of each message body: `message.split(': ', 1)`.

  const GroupNotification := "group_notification"

  /** The sender and the text of a message body: what comes before and
      after its first `": "`, or `group_notification` and the whole body
      when it has none. */
  function SplitSender(body: string): (r: (string, string))
    ensures Find(body, ": ").Some? ==>
      r.0 + ": " + r.1 == body && forall k :: !OccursAt(r.0, ": ", k)
    ensures Find(body, ": ").None? ==> r == (GroupNotification, body)
  {
    var parts := SplitOnce(body, ": ");
    if |parts| == 2 then (parts[0], parts[1]) else (GroupNotification, parts[0])
  }

  /** A sender name free of `": "` followed by `": "` and a text splits
      back into that sender and that text, whatever the text holds. */
  lemma SplitSenderJoin(user: string, text: string)
    requires forall k :: !OccursAt(user, ": ", k)
    ensures SplitSender(user + ": " + text) == (user, text)
  {
    var m := user + ": " + text;
    assert OccursAt(m, ": ", |user|) by {
      assert m[|user|..|user| + 2] == ": ";
    }
    forall j: nat | j < |user| ensures !OccursAt(m, ": ", j) {
      if j + 2 <= |user| {
        assert m[j..j + 2] == user[j..j + 2];
        assert !OccursAt(user, ": ", j);
      } else {
        assert m[j + 1] == ':';
      }
    }
    var k := Find(m, ": ").value;
    assert k == |user|;
    assert m[..|user|] == user;
    assert m[|user| + 2..] == text;
  }

  // ---------------------------------------------------------------------
  // Derived date columns: `dt.year`, `dt.month`, `dt.month_name()`,
  // `dt.day`, `dt.date`, `dt.hour`, `dt.minute`, `dt.day_name()`.

  datatype Fields = Fields(
    year: int, monthNum: int, month: string, day: int, onlyDate: Date,
    hour: int, minutes: int, dayName: string)

  /** The columns derived from one timestamp; they agree with each other
      and lie in their calendar ranges. */
  function DeriveFields(t: DateTime): (f: Fields)
    requires ValidDateTime(t)
    ensures f.onlyDate == t.date && ValidDate(f.onlyDate)
    ensures f.year == f.onlyDate.year && f.monthNum == f.onlyDate.month && f.day == f.onlyDate.day
    ensures 1 <= f.monthNum <= 12 && f.month == MonthNames[f.monthNum - 1]
    ensures 1 <= f.day <= DaysInMonth(f.year, f.monthNum)
    ensures 0 <= f.hour <= 23 && 0 <= f.minutes <= 59
    ensures f.dayName == WeekdayNames[Weekday(f.onlyDate)]
  {
    Fields(t.date.year, t.date.month, MonthName(t.date.month), t.date.day, t.date,
           t.hour, t.minute, DayName(t.date))
  }

  /** The derived columns of a null timestamp are null. */
  function FieldsOf(t: Option<DateTime>): Option<Fields>
    requires t.Some? ==> ValidDateTime(t.value)
  {
    match t
    case None => None
    case Some(dt) => Some(DeriveFields(dt))
  }

  /** The derived columns lose nothing: the date, hour and minute columns
      give back the timestamp, so different timestamps have different
      columns. */
  lemma FieldsDetermineTimestamp(a: DateTime, b: DateTime)
    requires ValidDateTime(a) && ValidDateTime(b)
    ensures DeriveFields(a) == DeriveFields(b) <==> a == b
  {
    if DeriveFields(a) == DeriveFields(b) {
      assert a.date == DeriveFields(a).onlyDate && a.hour == DeriveFields(a).hour;
    }
  }

  // ---------------------------------------------------------------------
  // Hour periods. With a null timestamp among the rows the `hour` column
  // is a float column: its values print as `5.0` and the null as `nan`,
  // and `nan + 1` is `nan`.

  /** `f"{hour}"` for a value of the `hour` column. */
  function ShowHour(h: Option<nat>, asFloat: bool): string {
    match h
    case None => "nan"
    case Some(n) => NatToString(n) + (if asFloat then ".0" else "")
  }

  /** `hour + 1`. */
  function NextHour(h: Option<nat>): Option<nat> {
    match h
    case None => None
    case Some(n) => Some(n + 1)
  }

  /** The period label of an hour: `23-00`, `00-1`, otherwise `h-(h+1)`. */
  function PeriodLabel(h: Option<nat>, asFloat: bool): string {
    if h == Some(23) then ShowHour(h, asFloat) + "-00"
    else if h == Some(0) then "00-" + ShowHour(NextHour(h), asFloat)
    else ShowHour(h, asFloat) + "-" + ShowHour(NextHour(h), asFloat)
  }

  /** The hour a label starts at. */
  function StartHour(period: string): nat {
    LeadingNumber(period)
  }

  /** The hour a label ends at: the number after its first `-`. */
  function EndHour(period: string): Option<nat> {
    match Find(period, "-")
    case None => None
    case Some(k) => Some(LeadingNumber(period[k + 1..]))
  }

  /** The first `-` of `a + "-" + b` where `a` has none is the one added. */
  lemma FindDash(a: string, b: string)
    requires '-' !in a
    ensures Find(a + "-" + b, "-") == Some(|a|)
  {
    var m := a + "-" + b;
    assert OccursAt(m, "-", |a|) by {
      assert m[|a|..|a| + 1] == "-";
    }
    forall j: nat | j < |a| ensures !OccursAt(m, "-", j) {
      assert m[j..j + 1] == [a[j]];
    }
  }

  /** An hour's text is digits and perhaps `.0`: it holds no `-`. (The
      second clause only unfolds `ShowHour` for the callers.) */
  lemma ShowHourNoDash(n: nat, asFloat: bool)
    ensures '-' !in ShowHour(Some(n), asFloat)
    ensures ShowHour(Some(n), asFloat) == NatToString(n) + (if asFloat then ".0" else "")
  {
    var w := NatToString(n);
    var s := ShowHour(Some(n), asFloat);
    forall j | 0 <= j < |s| ensures s[j] != '-' {
      if j < |w| { assert s[j] == w[j] && IsDigit(w[j]); }
    }
  }

  /** A label names its hour and the next one, round the clock: it starts
      at `h` and ends at `(h + 1) % 24`. */
  lemma PeriodHours(h: nat, asFloat: bool)
    requires h <= 23
    ensures StartHour(PeriodLabel(Some(h), asFloat)) == h
    ensures EndHour(PeriodLabel(Some(h), asFloat)) == Some((h + 1) % 24)
  {
    if h == 0 {
      MidnightHours(h, asFloat);
    } else if h == 23 {
      LateHours(h, asFloat);
    } else {
      DayHours(h, asFloat);
    }
  }

  lemma OneText()
    ensures NatToString(1) == "1"
  {
  }

  lemma TwentyThreeText()
    ensures NatToString(23) == "23"
  {
  }

  lemma DoubleZero()
    ensures LeadingNumber("00") == 0
  {
    DigitRunExact("00", 0, 2);
    assert "00"[..2] == "00";
    assert "00"[..1] == "0";
    assert "0"[..0] == [];
  }

  /** A label `x-y` with no `-` in `x` ends at the number `y` starts with. */
  lemma EndOfLabel(x: string, y: string)
    requires '-' !in x
    ensures EndHour(x + "-" + y) == Some(LeadingNumber(y))
  {
    FindDash(x, y);
    assert (x + "-" + y)[|x| + 1..] == y;
  }

  /** The hour-0 label is `00-1` (`00-1.0` in a float column), which starts
      at 0 and ends at 1. */
  lemma MidnightHours(h: nat, asFloat: bool)
    requires h == 0
    ensures PeriodLabel(Some(h), asFloat) == if asFloat then "00-1.0" else "00-1"
    ensures StartHour(PeriodLabel(Some(h), asFloat)) == h
    ensures EndHour(PeriodLabel(Some(h), asFloat)) == Some((h + 1) % 24)
  {
    var next := ShowHour(Some(h + 1), asFloat);
    var period := PeriodLabel(Some(h), asFloat);
    assert period == "00" + "-" + next;
    assert period == if asFloat then "00-1.0" else "00-1" by {
      OneText();
      ShowHourNoDash(h + 1, asFloat);
    }
    assert StartHour(period) == 0 by {
      DigitRunExact(period, 0, 2);
      assert period[..2] == "00";
      DoubleZero();
    }
    assert EndHour(period) == Some(1) by {
      EndOfLabel("00", next);
      ShowHourNoDash(h + 1, asFloat);
      LeadingNumberOf(h + 1, if asFloat then ".0" else "");
    }
  }

  /** The hour-23 label is `23-00` (`23.0-00` in a float column), which
      starts at 23 and ends at 0. */
  lemma LateHours(h: nat, asFloat: bool)
    requires h == 23
    ensures PeriodLabel(Some(h), asFloat) == if asFloat then "23.0-00" else "23-00"
    ensures StartHour(PeriodLabel(Some(h), asFloat)) == h
    ensures EndHour(PeriodLabel(Some(h), asFloat)) == Some((h + 1) % 24)
  {
    var start := ShowHour(Some(h), asFloat);
    var period := PeriodLabel(Some(h), asFloat);
    assert period == start + "-" + "00";
    assert period == if asFloat then "23.0-00" else "23-00" by {
      TwentyThreeText();
      ShowHourNoDash(h, asFloat);
    }
    assert StartHour(period) == h by {
      var tail := if asFloat then ".0" else "";
      ShowHourNoDash(h, asFloat);
      assert period == NatToString(h) + (tail + "-00");
      LeadingNumberOf(h, tail + "-00");
    }
    assert EndHour(period) == Some(0) by {
      ShowHourNoDash(h, asFloat);
      EndOfLabel(start, "00");
      DoubleZero();
    }
  }

  lemma DayHours(h: nat, asFloat: bool)
    requires 0 < h < 23
    ensures StartHour(PeriodLabel(Some(h), asFloat)) == h
    ensures EndHour(PeriodLabel(Some(h), asFloat)) == Some((h + 1) % 24)
  {
    var start, next := ShowHour(Some(h), asFloat), ShowHour(Some(h + 1), asFloat);
    var period := PeriodLabel(Some(h), asFloat);
    assert period == start + "-" + next;
    assert StartHour(period) == h by {
      var tail := if asFloat then ".0" else "";
      ShowHourNoDash(h, asFloat);
      assert period == NatToString(h) + (tail + "-" + next);
      LeadingNumberOf(h, tail + "-" + next);
    }
    assert EndHour(period) == Some(h + 1) by {
      ShowHourNoDash(h, asFloat);
      ShowHourNoDash(h + 1, asFloat);
      EndOfLabel(start, next);
      LeadingNumberOf(h + 1, if asFloat then ".0" else "");
    }
    ModDay(h + 1);
  }

  lemma ModDay(x: int)
    requires 0 <= x < 24
    ensures x % 24 == x
  {
  }

  /** A label for an hour starts with a digit; the null hour's `nan-nan`
      does not. */
  lemma PeriodStartsWithDigit(h: nat, asFloat: bool)
    ensures |PeriodLabel(Some(h), asFloat)| > 0 && IsDigit(PeriodLabel(Some(h), asFloat)[0])
  {
    if h != 0 {
      ShowHourNoDash(h, asFloat);
      var w := NatToString(h);
      assert PeriodLabel(Some(h), asFloat)[0] == w[0];
    }
  }

  /** Different hours, and the null hour, get different labels. */
  lemma PeriodLabelsDistinct(a: Option<nat>, b: Option<nat>, asFloat: bool)
    requires a.Some? ==> a.value <= 23
    requires b.Some? ==> b.value <= 23
    ensures PeriodLabel(a, asFloat) == PeriodLabel(b, asFloat) <==> a == b
  {
    if a.Some? && b.Some? {
      PeriodHours(a.value, asFloat);
      PeriodHours(b.value, asFloat);
    } else if a.Some? && b.None? {
      PeriodStartsWithDigit(a.value, asFloat);
      assert PeriodLabel(b, asFloat)[0] == 'n';
    } else if a.None? && b.Some? {
      PeriodStartsWithDigit(b.value, asFloat);
      assert PeriodLabel(a, asFloat)[0] == 'n';
    }
  }

  // ---------------------------------------------------------------------
  // The data frame `preprocess` returns, one row per message.

  /** One row: `date` (null when coerced), `user`, `message`, the derived
      date columns (null with the date) and `period`. */
  datatype Row = Row(date: Option<DateTime>, user: string, message: string, fields: Option<Fields>, period: string)

  /** The `hour` column's value for a timestamp. */
  function HourOf(t: Option<DateTime>): (h: Option<nat>)
    requires t.Some? ==> ValidDateTime(t.value)
    ensures h.Some? <==> t.Some?
    ensures h.Some? ==> h.value == t.value.hour <= 23
  {
    match t
    case None => None
    case Some(dt) => Some(dt.hour as nat)
  }

  /** Whether some timestamp prefix was coerced to null, which makes the
      `hour` column a float column. */
  predicate HasNull(data: string) {
    exists k :: 0 <= k < |Dates(data)| && ToDateTime(Dates(data)[k]).None?
  }

  /** The row for one prefix and its message body. */
  function RowOf(dateText: string, body: string, asFloat: bool): Row {
    var date := ToDateTime(dateText);
    var (user, message) := SplitSender(body);
    Row(date, user, message, FieldsOf(date), PeriodLabel(HourOf(date), asFloat))
  }

  /** The frame `preprocess(data)` returns. */
  function Frame(data: string): (rows: seq<Row>)
    ensures |rows| == |Spans(data)|
  {
    var dates, bodies := Dates(data), Messages(data);
    seq(|dates|, k requires 0 <= k < |dates| => RowOf(dates[k], bodies[k], HasNull(data)))
  }

  /** The `k`-th row is made of the text of the `k`-th prefix match and of
      the text after it up to the next match, or to the end of the chat. */
  lemma FrameAt(data: string, k: nat)
    requires k < |Frame(data)|
    ensures var ms := Spans(data);
      var stop := if k + 1 < |ms| then ms[k + 1].start else |data|;
      && ms[k].start <= ms[k].end <= stop <= |data|
      && Frame(data)[k] == RowOf(data[ms[k].start..ms[k].end], data[ms[k].end..stop], HasNull(data))
  {
    var ms := Spans(data);
    MatchedAt(data, ms, 0, k);
    PiecesAt(data, ms, 0, k);
    assert Messages(data)[k] == Pieces(data, ms, 0)[k + 1];
  }

  /** What a row holds, in terms of its prefix text and its body. */
  lemma RowOfSpec(dateText: string, body: string, asFloat: bool)
    ensures var row := RowOf(dateText, body, asFloat);
      && row.date == ToDateTime(dateText)
      && (row.date.Some? <==> row.fields.Some?)
      && (row.date.Some? ==> row.fields.value == DeriveFields(row.date.value))
      && (Find(body, ": ").Some? ==> row.user + ": " + row.message == body)
      && (Find(body, ": ").None? ==> row.user == GroupNotification && row.message == body)
      && (row.date.Some? ==>
            StartHour(row.period) == row.date.value.hour &&
            EndHour(row.period) == Some((row.date.value.hour + 1) % 24))
      && (row.date.None? ==> row.period == "nan-nan")
  {
    var date := ToDateTime(dateText);
    if date.Some? {
      PeriodHours(date.value.hour, asFloat);
    }
  }

  /** What each row of the frame holds: the timestamp its prefix denotes
      (or null), the sender and text its body splits into, and a period
      that starts at the row's hour and ends at the next hour round the
      clock, or `nan-nan` for a null timestamp. */
  lemma FrameRow(data: string, k: nat)
    requires k < |Frame(data)|
    ensures Spans(data)[k].start <= |data| && Read(data, Spans(data)[k].start).Some?
    ensures var row := Frame(data)[k];
      var body := Messages(data)[k];
      && row.date == StampToDateTime(Read(data, Spans(data)[k].start).value)
      && (row.date.Some? <==> row.fields.Some?)
      && (row.date.Some? ==> row.fields.value == DeriveFields(row.date.value))
      && (Find(body, ": ").Some? ==> row.user + ": " + row.message == body)
      && (Find(body, ": ").None? ==> row.user == GroupNotification && row.message == body)
      && (row.date.Some? ==>
            StartHour(row.period) == row.date.value.hour &&
            EndHour(row.period) == Some((row.date.value.hour + 1) % 24))
      && (row.date.None? ==> row.period == "nan-nan")
  {
    var row, dateText, body := Frame(data)[k], Dates(data)[k], Messages(data)[k];
    assert row == RowOf(dateText, body, HasNull(data));
    assert Spans(data)[k].start <= |data| && Read(data, Spans(data)[k].start).Some?
      && ToDateTime(dateText) == StampToDateTime(Read(data, Spans(data)[k].start).value) by {
      DatesParse(data, k);
    }
    RowOfSpec(dateText, body, HasNull(data));
  }

  /** The loop over the message bodies: each one's sender and text. */
  method SplitSenders(bodies: seq<string>) returns (users: seq<string>, messages: seq<string>)
    ensures |users| == |messages| == |bodies|
    ensures forall k :: 0 <= k < |bodies| ==> (users[k], messages[k]) == SplitSender(bodies[k])
  {
    users, messages := [], [];
    for i := 0 to |bodies|
      invariant |users| == |messages| == i
      invariant forall k :: 0 <= k < i ==> (users[k], messages[k]) == SplitSender(bodies[k])
    {
      var parts := SplitOnce(bodies[i], ": ");
      if |parts| == 2 {
        users := users + [parts[0]];
        messages := messages + [parts[1]];
      } else {
        users := users + [GroupNotification];
        messages := messages + [parts[0]];
      }
    }
  }

  /** The loop over the `hour` column: each hour's period label. */
  method Periods(hours: seq<Option<nat>>, asFloat: bool) returns (period: seq<string>)
    ensures |period| == |hours|
    ensures forall k :: 0 <= k < |hours| ==> period[k] == PeriodLabel(hours[k], asFloat)
  {
    period := [];
    for i := 0 to |hours|
      invariant |period| == i
      invariant forall k :: 0 <= k < i ==> period[k] == PeriodLabel(hours[k], asFloat)
    {
      var hour := hours[i];
      if hour == Some(23) {
        period := period + [ShowHour(hour, asFloat) + "-00"];
      } else if hour == Some(0) {
        period := period + ["00-" + ShowHour(NextHour(hour), asFloat)];
      } else {
        period := period + [ShowHour(hour, asFloat) + "-" + ShowHour(NextHour(hour), asFloat)];
      }
    }
  }

  /** The preprocessing pass of preprocessor.py: split the chat at its
      timestamp prefixes, parse the prefixes, split each body into sender
      and text, derive the date columns and label each hour's period. */
  method Preprocess(data: string) returns (rows: seq<Row>)
    ensures rows == Frame(data)
  {
    var bodies := Messages(data);
    var dates := Dates(data);
    var parsed := seq(|dates|, k requires 0 <= k < |dates| => ToDateTime(dates[k]));
    var users, messages := SplitSenders(bodies);
    var fields := seq(|parsed|, k requires 0 <= k < |parsed| => FieldsOf(parsed[k]));
    var hours := seq(|parsed|, k requires 0 <= k < |parsed| => HourOf(parsed[k]));
    var asFloat := None in parsed;
    assert asFloat == HasNull(data) by {
      if asFloat {
        var k :| 0 <= k < |parsed| && parsed[k] == None;
        assert ToDateTime(Dates(data)[k]).None?;
      } else {
        forall k | 0 <= k < |dates| ensures ToDateTime(Dates(data)[k]).Some? {
          assert parsed[k] in parsed;
        }
      }
    }
    var period := Periods(hours, asFloat);
    rows := seq(|dates|, k requires 0 <= k < |dates| =>
      Row(parsed[k], users[k], messages[k], fields[k], period[k]));
    forall k | 0 <= k < |rows| ensures rows[k] == Frame(data)[k] {
      assert Frame(data)[k] == RowOf(Dates(data)[k], Messages(data)[k], HasNull(data));
    }
  }
}
