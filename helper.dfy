/** The extractors of helper.py over the rows of a preprocessed chat: the
    'Overall' selection, the top statistics, the busiest senders, the most
    common words, the emoji counts, the monthly and daily timelines, the
    weekday and month activity maps and the weekday-by-period heat map. */
module Helper {
  import opened Wrappers
  import opened Text
  import opened Orders
  import opened Calendar
  import opened Counting
  import opened Series
  import opened Preprocessor

  /** The selection that stands for every sender. */
  const Overall := "Overall"

  /** The body a chat export puts in place of an attachment. */
  const MediaOmitted := "<Media omitted>\n"

  /** A row as `preprocess` builds it: the derived columns are null exactly
      when the timestamp is, and are otherwise those of the timestamp. */
  predicate WellFormed(r: Row) {
    (r.date.Some? <==> r.fields.Some?) &&
    (r.date.Some? ==> ValidDateTime(r.date.value) && r.fields.value == DeriveFields(r.date.value))
  }

  /** Every row of a preprocessed chat is well formed. */
  lemma FrameWellFormed(data: string)
    ensures forall k :: 0 <= k < |Frame(data)| ==> WellFormed(Frame(data)[k])
  {
    forall k | 0 <= k < |Frame(data)| ensures WellFormed(Frame(data)[k]) {
      FrameRow(data, k);
    }
  }

  // ---------------------------------------------------------------------
  // The sender filter every extractor starts with.

  /** The `user` column. */
  function Users(rows: seq<Row>): (us: seq<string>)
    ensures |us| == |rows|
  {
    if rows == [] then [] else [rows[0].user] + Users(rows[1..])
  }

  /** The mask `df['user'] == user`. */
  function SentBy(user: string): Row -> bool {
    (r: Row) => r.user == user
  }

  /** `df[df['user'] == user]`, unless the selection is 'Overall'. */
  function Selected(user: string, rows: seq<Row>): (sel: seq<Row>)
    ensures user == Overall ==> sel == rows
    ensures user != Overall ==> forall i :: 0 <= i < |sel| ==> sel[i].user == user
  {
    if user == Overall then rows else Filter(SentBy(user), rows)
  }

  /** The selection keeps the frame's order, and for a sender it holds each
      of their rows as often as the frame does and no row of anyone else. */
  lemma SelectedSpec(user: string, a: seq<Row>, b: seq<Row>)
    ensures Selected(user, a + b) == Selected(user, a) + Selected(user, b)
    ensures user != Overall ==>
      forall r :: multiset(Selected(user, a))[r] == if r.user == user then multiset(a)[r] else 0
  {
    if user != Overall {
      FilterAppend(SentBy(user), a, b);
      FilterMultiset(SentBy(user), a);
    }
  }

  /** A sender's selection has one row per time the `user` column names them. */
  lemma {:induction false} SelectedCount(user: string, rows: seq<Row>)
    ensures user != Overall ==> |Selected(user, rows)| == multiset(Users(rows))[user]
  {
    if user != Overall && rows != [] {
      SelectedCount(user, rows[1..]);
      assert Users(rows) == [rows[0].user] + Users(rows[1..]);
    }
  }

  /** A selected row is a row of the frame. */
  lemma SelectedMember(user: string, rows: seq<Row>, r: Row)
    requires r in Selected(user, rows)
    ensures r in rows && (user != Overall ==> r.user == user)
  {
    if user != Overall {
      FilterMember(SentBy(user), rows, r);
    }
  }

  // ---------------------------------------------------------------------
  // fetch_stats

  datatype Stats = Stats(messages: nat, words: nat, media: nat, links: nat)

  predicate IsMedia(r: Row) {
    r.message == MediaOmitted
  }

  /** `sum(len(msg.split()) for msg in df['message'])`. */
  function TokenCount(rows: seq<Row>): nat {
    if rows == [] then 0 else |Tokens(rows[0].message)| + TokenCount(rows[1..])
  }

  /** `sum(len(find_urls(msg)) for msg in df['message'])` for a URL finder. */
  function LinkCount(findUrls: string -> seq<string>, rows: seq<Row>): nat {
    if rows == [] then 0 else |findUrls(rows[0].message)| + LinkCount(findUrls, rows[1..])
  }

  /** The words of the messages in order: the list that `words.extend`
      builds message by message. */
  function WordsOf(rows: seq<Row>): seq<string>
    decreases |rows|
  {
    if rows == [] then [] else WordsOf(rows[..|rows| - 1]) + Tokens(rows[|rows| - 1].message)
  }

  lemma {:induction false} TokenCountAppend(a: seq<Row>, b: seq<Row>)
    ensures TokenCount(a + b) == TokenCount(a) + TokenCount(b)
  {
    if a == [] {
      assert a + b == b;
    } else {
      assert (a + b)[0] == a[0] && (a + b)[1..] == a[1..] + b;
      TokenCountAppend(a[1..], b);
    }
  }

  /** Counting tokens message by message counts the words the loop collects. */
  lemma {:induction false} WordsOfCount(rows: seq<Row>)
    ensures |WordsOf(rows)| == TokenCount(rows)
    decreases |rows|
  {
    if rows != [] {
      var init, last := rows[..|rows| - 1], rows[|rows| - 1];
      WordsOfCount(init);
      assert rows == init + [last];
      TokenCountAppend(init, [last]);
      assert [last][1..] == [];
    }
  }

  /** Dropping rows drops words. */
  lemma {:induction false} TokenCountFilter(p: Row -> bool, rows: seq<Row>)
    ensures TokenCount(Filter(p, rows)) <= TokenCount(rows)
  {
    if rows != [] {
      TokenCountFilter(p, rows[1..]);
      var head := if p(rows[0]) then [rows[0]] else [];
      TokenCountAppend(head, Filter(p, rows[1..]));
      if head != [] { assert head[1..] == []; }
    }
  }

  /** The `message` column. */
  function MessageColumn(rows: seq<Row>): (ms: seq<string>)
    ensures |ms| == |rows|
  {
    if rows == [] then [] else [rows[0].message] + MessageColumn(rows[1..])
  }

  /** The rows whose message is the media placeholder are as many as the
      placeholder's occurrences in the `message` column. */
  lemma {:induction false} MediaRows(rows: seq<Row>)
    ensures |Filter(IsMedia, rows)| == multiset(MessageColumn(rows))[MediaOmitted]
  {
    if rows != [] {
      MediaRows(rows[1..]);
    }
  }

  /** `fetch_stats`: rows, words, media placeholders and links of the
      selection. A sender's row count is how often the `user` column names
      them; with 'Overall' it is the whole frame. */
  function FetchStats(user: string, rows: seq<Row>, findUrls: string -> seq<string>): (st: Stats)
    ensures user == Overall ==> st.messages == |rows|
    ensures user != Overall ==> st.messages == multiset(Users(rows))[user]
    ensures st.words == |WordsOf(Selected(user, rows))|
    ensures st.media == multiset(MessageColumn(Selected(user, rows)))[MediaOmitted]
    ensures st.media <= st.messages
  {
    var sel := Selected(user, rows);
    SelectedCount(user, rows);
    WordsOfCount(sel);
    MediaRows(sel);
    Stats(|sel|, TokenCount(sel), |Filter(IsMedia, sel)|, LinkCount(findUrls, sel))
  }

  // ---------------------------------------------------------------------
  // most_busy_users

  /** `df['user'].value_counts().head()`: the five busiest senders. */
  function MostBusyUsers(rows: seq<Row>): seq<Entry<string>> {
    MostCommon(Users(rows), Some(5))
  }

  /** At most five distinct senders, each with their number of rows, the
      counts never increasing; a sender left out has no more rows than any
      listed one, and is left out only when five are listed. */
  lemma MostBusyUsersSpec(rows: seq<Row>, user: string)
    ensures var top := MostBusyUsers(rows);
      && |top| <= 5
      && Distinct(Keys(top))
      && (forall i :: 0 <= i < |top| ==> top[i].count == multiset(Users(rows))[top[i].key] > 0)
      && (forall i, j :: 0 <= i < j < |top| ==> top[i].count >= top[j].count)
      && (user in Users(rows) && user !in Keys(top) ==>
            |top| == 5 && forall i :: 0 <= i < |top| ==> multiset(Users(rows))[user] <= top[i].count)
  {
    HeadRows(Users(rows), 5, user);
  }

  /** `value_counts().head(n)` of a column `xs`. */
  lemma HeadRows<T(!new)>(xs: seq<T>, n: nat, x: T)
    ensures var top := MostCommon(xs, Some(n));
      && |top| <= n
      && Distinct(Keys(top))
      && (forall i :: 0 <= i < |top| ==> top[i].count == multiset(xs)[top[i].key] > 0)
      && (forall i, j :: 0 <= i < j < |top| ==> top[i].count >= top[j].count)
      && (x in xs && x !in Keys(top) ==>
            |top| == n && forall i :: 0 <= i < |top| ==> multiset(xs)[x] <= top[i].count)
  {
    MostCommonRows(xs, Some(n));
    if x in xs && x !in Keys(MostCommon(xs, Some(n))) {
      MostCommonTop(xs, n, x);
    }
  }

  /** A listed sender's count is the row count `fetch_stats` reports for them. */
  lemma BusyCountIsMessageCount(rows: seq<Row>, findUrls: string -> seq<string>, i: nat)
    requires i < |MostBusyUsers(rows)| && MostBusyUsers(rows)[i].key != Overall
    ensures MostBusyUsers(rows)[i].count == FetchStats(MostBusyUsers(rows)[i].key, rows, findUrls).messages
  {
    MostBusyUsersSpec(rows, Overall);
  }

  // ---------------------------------------------------------------------
  // most_common_words

  /** The rows `most_common_words` reads: no group notification, no media
      placeholder. */
  predicate Kept(r: Row) {
    r.user != GroupNotification && r.message != MediaOmitted
  }

  /** The words `most_common_words` counts. */
  function Words(user: string, rows: seq<Row>): seq<string> {
    WordsOf(Filter(Kept, Selected(user, rows)))
  }

  /** The twenty most frequent words of the kept rows of the selection, each
      with its number of occurrences, counts never increasing and equal
      counts in order of first use. */
  method MostCommonWords(user: string, rows: seq<Row>) returns (top: seq<Entry<string>>)
    ensures top == MostCommon(Words(user, rows), Some(20))
    ensures |top| <= 20 && Distinct(Keys(top))
    ensures forall i :: 0 <= i < |top| ==>
      top[i].count == multiset(Words(user, rows))[top[i].key] > 0
    ensures forall i, j :: 0 <= i < j < |top| ==>
      top[i].count > top[j].count ||
      (top[i].count == top[j].count &&
       FirstIndex(Words(user, rows), top[i].key) < FirstIndex(Words(user, rows), top[j].key))
  {
    var temp := Filter(Kept, Selected(user, rows));
    var words: seq<string> := [];
    for i := 0 to |temp|
      invariant words == WordsOf(temp[..i])
    {
      WordsOfStep(temp, i);
      words := words + Tokens(temp[i].message);
    }
    assert temp[..|temp|] == temp;
    top := MostCommon(words, Some(20));
    MostCommonRows(words, Some(20));
  }

  /** One more message contributes its tokens at the end. */
  lemma WordsOfStep(rows: seq<Row>, i: nat)
    requires i < |rows|
    ensures WordsOf(rows[..i + 1]) == WordsOf(rows[..i]) + Tokens(rows[i].message)
  {
    assert rows[..i + 1][..i] == rows[..i];
  }

  /** A word of the loop comes from one of the messages. */
  lemma {:induction false} WordsOfMember(rows: seq<Row>, w: string) returns (k: nat)
    requires w in WordsOf(rows)
    ensures k < |rows| && w in Tokens(rows[k].message)
    decreases |rows|
  {
    var init, last := rows[..|rows| - 1], rows[|rows| - 1];
    if w in WordsOf(init) {
      k := WordsOfMember(init, w);
    } else {
      k := |rows| - 1;
    }
  }

  /** Every counted word is a token of a message of the selection that is
      neither a group notification nor a media placeholder. */
  lemma WordsFromKeptRows(user: string, rows: seq<Row>, w: string) returns (k: nat)
    requires w in Words(user, rows)
    ensures k < |rows| && Kept(rows[k]) && w in Tokens(rows[k].message)
    ensures user != Overall ==> rows[k].user == user
  {
    var sel := Selected(user, rows);
    var temp := Filter(Kept, sel);
    var j := WordsOfMember(temp, w);
    var r := temp[j];
    FilterMember(Kept, sel, r);
    SelectedMember(user, rows, r);
    k :| 0 <= k < |rows| && rows[k] == r;
  }

  /** `most_common_words` never sees more words than `fetch_stats` counts. */
  lemma WordsWithinStats(user: string, rows: seq<Row>, findUrls: string -> seq<string>)
    ensures |Words(user, rows)| <= FetchStats(user, rows, findUrls).words
  {
    var sel := Selected(user, rows);
    WordsOfCount(Filter(Kept, sel));
    WordsOfCount(sel);
    TokenCountFilter(Kept, sel);
  }

  // ---------------------------------------------------------------------
  // emoji_helper

  /** The messages one after the other. */
  function AllText(rows: seq<Row>): string
    decreases |rows|
  {
    if rows == [] then [] else AllText(rows[..|rows| - 1]) + rows[|rows| - 1].message
  }

  /** The emoji of each message in turn: the list that `emojis.extend`
      builds. */
  function EmojisOf(isEmoji: char -> bool, rows: seq<Row>): seq<char>
    decreases |rows|
  {
    if rows == [] then [] else EmojisOf(isEmoji, rows[..|rows| - 1]) + Filter(isEmoji, rows[|rows| - 1].message)
  }

  /** The collected emoji are the emoji characters of all messages, in order. */
  lemma {:induction false} EmojisOfText(isEmoji: char -> bool, rows: seq<Row>)
    ensures EmojisOf(isEmoji, rows) == Filter(isEmoji, AllText(rows))
    decreases |rows|
  {
    if rows != [] {
      var init, last := rows[..|rows| - 1], rows[|rows| - 1];
      EmojisOfText(isEmoji, init);
      FilterAppend(isEmoji, AllText(init), last.message);
    }
  }

  /** What the counted emoji table holds: every emoji character of the
      messages with its number of occurrences, counts never increasing,
      adding up to the number of emoji characters. */
  lemma EmojiCounts(isEmoji: char -> bool, df: seq<Row>)
    ensures var counts := MostCommon(EmojisOf(isEmoji, df), None);
      && (forall i :: 0 <= i < |counts| ==>
            isEmoji(counts[i].key) && counts[i].count == multiset(AllText(df))[counts[i].key] > 0)
      && (forall c :: isEmoji(c) && c in AllText(df) ==> c in Keys(counts))
      && (forall i, j :: 0 <= i < j < |counts| ==> counts[i].count >= counts[j].count)
      && SumCounts(counts) == |EmojisOf(isEmoji, df)|
    ensures Distinct(Keys(MostCommon(EmojisOf(isEmoji, df), None)))
  {
    EmojisOfText(isEmoji, df);
    CountSelected(isEmoji, AllText(df));
    MostCommonDistinct(EmojisOf(isEmoji, df), None);
  }

  /** Counting the elements of `text` that satisfy `p`. */
  lemma CountSelected<T(!new)>(p: T -> bool, text: seq<T>)
    ensures var xs := Filter(p, text);
      var counts := MostCommon(xs, None);
      && (forall i :: 0 <= i < |counts| ==>
            p(counts[i].key) && counts[i].count == multiset(text)[counts[i].key] > 0)
      && (forall c :: p(c) && c in text ==> c in Keys(counts))
      && (forall i, j :: 0 <= i < j < |counts| ==> counts[i].count >= counts[j].count)
      && SumCounts(counts) == |xs|
  {
    var xs := Filter(p, text);
    FilterMultiset(p, text);
    CountedRows(p, text, xs);
    CountedKeys(p, text, xs);
    MostCommonAll(xs);
  }

  lemma CountedRows<T(!new)>(p: T -> bool, text: seq<T>, xs: seq<T>)
    requires forall c :: multiset(xs)[c] == if p(c) then multiset(text)[c] else 0
    ensures var counts := MostCommon(xs, None);
      && (forall i :: 0 <= i < |counts| ==>
            p(counts[i].key) && counts[i].count == multiset(text)[counts[i].key] > 0)
      && (forall i, j :: 0 <= i < j < |counts| ==> counts[i].count >= counts[j].count)
  {
    MostCommonRows(xs, None);
  }

  lemma CountedKeys<T(!new)>(p: T -> bool, text: seq<T>, xs: seq<T>)
    requires forall c :: multiset(xs)[c] == if p(c) then multiset(text)[c] else 0
    ensures forall c :: p(c) && c in text ==> c in Keys(MostCommon(xs, None))
  {
    MostCommonAll(xs);
    forall c | p(c) && c in text ensures c in xs {
      assert multiset(text)[c] > 0;
    }
  }

  /** Every emoji character of the selection's messages with its number of
      occurrences, counts never increasing, equal counts in order of first
      use; the counts add up to the number of emoji characters. */
  method EmojiHelper(user: string, rows: seq<Row>, isEmoji: char -> bool) returns (counts: seq<Entry<char>>)
    ensures counts == MostCommon(EmojisOf(isEmoji, Selected(user, rows)), None)
    ensures forall i :: 0 <= i < |counts| ==>
      isEmoji(counts[i].key) && counts[i].count == multiset(AllText(Selected(user, rows)))[counts[i].key] > 0
    ensures forall c :: isEmoji(c) && c in AllText(Selected(user, rows)) ==> c in Keys(counts)
    ensures forall i, j :: 0 <= i < j < |counts| ==> counts[i].count >= counts[j].count
    ensures SumCounts(counts) == |EmojisOf(isEmoji, Selected(user, rows))|
    ensures Distinct(Keys(counts))
  {
    var df := Selected(user, rows);
    var emojis: seq<char> := [];
    for i := 0 to |df|
      invariant emojis == EmojisOf(isEmoji, df[..i])
    {
      EmojisOfStep(isEmoji, df, i);
      emojis := emojis + Filter(isEmoji, df[i].message);
    }
    assert df[..|df|] == df;
    counts := MostCommon(emojis, None);
    EmojiCounts(isEmoji, df);
  }

  /** One more message contributes its emoji at the end. */
  lemma EmojisOfStep(isEmoji: char -> bool, rows: seq<Row>, i: nat)
    requires i < |rows|
    ensures EmojisOf(isEmoji, rows[..i + 1]) == EmojisOf(isEmoji, rows[..i]) + Filter(isEmoji, rows[i].message)
  {
    assert rows[..i + 1][..i] == rows[..i];
  }

  // ---------------------------------------------------------------------
  // Grouped counts over a derived column with its nulls dropped.

  predicate Dated(r: Row) {
    r.fields.Some?
  }

  /** `groupby(f).count()` over rows: the keys ascend, each counts the rows
      yielding it, every key that occurs is listed, and the counts add up
      to the rows whose key is not null. */
  lemma GroupedBy<K(!new)>(lt: (K, K) -> bool, f: Row -> Option<K>, sel: seq<Row>)
    requires StrictTotalOrder(lt)
    ensures var g := GroupCount(lt, FilterMap(f, sel));
      && StrictlyAscending(lt, Keys(g))
      && (forall i :: 0 <= i < |g| ==> g[i].count == |Filter(Yields(f, g[i].key), sel)| > 0)
      && (forall k :: k in Keys(g) <==> |Filter(Yields(f, k), sel)| > 0)
      && SumCounts(g) == |Filter(Defined(f), sel)|
  {
    var ks := FilterMap(f, sel);
    var g := GroupCount(lt, ks);
    GroupCountSpec(lt, ks);
    AscendingDistinct(lt, Keys(g));
    FilterMapSize(f, sel);
    forall k ensures multiset(ks)[k] == |Filter(Yields(f, k), sel)| {
      FilterMapCount(f, sel, k);
    }
    forall i | 0 <= i < |g| ensures g[i].count == multiset(ks)[g[i].key] > 0 {
      CountOfAt(g, i);
      assert Keys(g)[i] == g[i].key;
      assert g[i].key in ks;
    }
  }

  /** `value_counts()` of a derived column: every value that occurs, once,
      with the rows yielding it, counts never increasing, adding up to the
      rows whose value is not null. */
  lemma Tallied<K(!new)>(f: Row -> Option<K>, sel: seq<Row>)
    ensures var vc := MostCommon(FilterMap(f, sel), None);
      && Distinct(Keys(vc))
      && (forall i :: 0 <= i < |vc| ==> vc[i].count == |Filter(Yields(f, vc[i].key), sel)| > 0)
      && (forall i, j :: 0 <= i < j < |vc| ==> vc[i].count >= vc[j].count)
      && (forall k :: k in Keys(vc) <==> |Filter(Yields(f, k), sel)| > 0)
      && SumCounts(vc) == |Filter(Defined(f), sel)|
  {
    var xs := FilterMap(f, sel);
    MostCommonRows(xs, None);
    MostCommonAll(xs);
    FilterMapSize(f, sel);
    forall k ensures multiset(xs)[k] == |Filter(Yields(f, k), sel)| {
      FilterMapCount(f, sel, k);
    }
  }

  /** Rows with a timestamp, counted through any column derived from it. */
  lemma DatedRows<K>(f: Row -> Option<K>, sel: seq<Row>)
    requires forall r :: f(r).Some? <==> Dated(r)
    ensures |Filter(Defined(f), sel)| == |Filter(Dated, sel)|
  {
    FilterSame(Defined(f), Dated, sel);
  }

  /** A row yielding a value from a well-formed selection is a dated row of
      the frame. */
  lemma Witness<K(!new)>(f: Row -> Option<K>, user: string, rows: seq<Row>, k: K) returns (r: Row)
    requires |Filter(Yields(f, k), Selected(user, rows))| > 0
    ensures r in rows && f(r) == Some(k)
  {
    var sel := Selected(user, rows);
    r := Filter(Yields(f, k), sel)[0];
    FilterMember(Yields(f, k), sel, r);
    SelectedMember(user, rows, r);
  }

  // ---------------------------------------------------------------------
  // monthly_timeline

  /** The group key `(year, month_num, month)`. */
  datatype MonthKey = MonthKey(year: int, monthNum: int, month: string)

  /** The order `groupby` sorts the keys by: year, month number, month name. */
  predicate MonthLess(a: MonthKey, b: MonthKey) {
    a.year < b.year ||
    (a.year == b.year && (a.monthNum < b.monthNum || (a.monthNum == b.monthNum && StringLess(a.month, b.month))))
  }

  lemma MonthLessOrder()
    ensures StrictTotalOrder(MonthLess)
  {
    StringLessOrder();
  }

  function MonthOf(r: Row): Option<MonthKey> {
    if r.fields.Some? then Some(MonthKey(r.fields.value.year, r.fields.value.monthNum, r.fields.value.month)) else None
  }

  /** `groupby(['year', 'month_num', 'month']).count()['message']`. */
  function MonthlyTimeline(user: string, rows: seq<Row>): seq<Entry<MonthKey>> {
    GroupCount(MonthLess, FilterMap(MonthOf, Selected(user, rows)))
  }

  /** One row per month with messages, months ascending, each with its
      number of dated rows of the selection; the counts add up to the dated
      rows. In a well-formed frame each key's name is its month's. */
  lemma MonthlyTimelineSpec(user: string, rows: seq<Row>)
    ensures var tl, sel := MonthlyTimeline(user, rows), Selected(user, rows);
      && StrictlyAscending(MonthLess, Keys(tl))
      && (forall i :: 0 <= i < |tl| ==> tl[i].count == |Filter(Yields(MonthOf, tl[i].key), sel)| > 0)
      && (forall k :: k in Keys(tl) <==> |Filter(Yields(MonthOf, k), sel)| > 0)
      && SumCounts(tl) == |Filter(Dated, sel)|
    ensures (forall k :: 0 <= k < |rows| ==> WellFormed(rows[k])) ==>
      forall i :: 0 <= i < |MonthlyTimeline(user, rows)| ==>
        var key := MonthlyTimeline(user, rows)[i].key;
        1 <= key.monthNum <= 12 && key.month == MonthNames[key.monthNum - 1] && key.year >= 1
  {
    var sel := Selected(user, rows);
    MonthLessOrder();
    GroupedBy(MonthLess, MonthOf, sel);
    DatedRows(MonthOf, sel);
    MonthKeysNamed(user, rows);
  }

  /** In a well-formed frame every month of the timeline is a real month
      of a positive year, under its English name. */
  lemma MonthKeysNamed(user: string, rows: seq<Row>)
    ensures (forall k :: 0 <= k < |rows| ==> WellFormed(rows[k])) ==>
      forall i :: 0 <= i < |MonthlyTimeline(user, rows)| ==>
        var key := MonthlyTimeline(user, rows)[i].key;
        1 <= key.monthNum <= 12 && key.month == MonthNames[key.monthNum - 1] && key.year >= 1
  {
    var tl, sel := MonthlyTimeline(user, rows), Selected(user, rows);
    if forall k :: 0 <= k < |rows| ==> WellFormed(rows[k]) {
      forall i | 0 <= i < |tl|
        ensures 1 <= tl[i].key.monthNum <= 12 && tl[i].key.month == MonthNames[tl[i].key.monthNum - 1] && tl[i].key.year >= 1
      {
        MonthLessOrder();
        GroupedBy(MonthLess, MonthOf, sel);
        assert Keys(tl)[i] == tl[i].key;
        var r := Witness(MonthOf, user, rows, tl[i].key);
        assert WellFormed(r);
      }
    }
  }

  /** Whether the `year` column is a float column: some timestamp is null. */
  predicate FloatYears(rows: seq<Row>) {
    exists k :: 0 <= k < |rows| && rows[k].fields.None?
  }

  /** `str(year)` for a value of the `year` column. */
  function YearText(y: int, asFloat: bool): string {
    (if y < 0 then "-" + NatToString(-y) else NatToString(y)) + (if asFloat then ".0" else "")
  }

  /** `timeline['month'] + "-" + timeline['year'].astype(str)`. */
  function TimeLabels(tl: seq<Entry<MonthKey>>, asFloat: bool): (times: seq<string>)
    ensures |times| == |tl|
  {
    seq(|tl|, i requires 0 <= i < |tl| => tl[i].key.month + "-" + YearText(tl[i].key.year, asFloat))
  }

  /** The `time` column of `monthly_timeline`: `str` of a float year when
      the frame's `year` column is a float column. */
  function MonthlyTimeLabels(user: string, rows: seq<Row>): (times: seq<string>)
    ensures |times| == |MonthlyTimeline(user, rows)|
  {
    TimeLabels(MonthlyTimeline(user, rows), FloatYears(rows))
  }

  /** In a preprocessed chat the `year` column is a float column exactly
      when some timestamp prefix was coerced to null. */
  lemma FloatYearsOfChat(data: string)
    ensures FloatYears(Frame(data)) <==> HasNull(data)
  {
    var rows := Frame(data);
    forall k | 0 <= k < |rows| ensures rows[k].fields.None? <==> ToDateTime(Dates(data)[k]).None? {
      assert rows[k] == RowOf(Dates(data)[k], Messages(data)[k], HasNull(data));
      RowOfSpec(Dates(data)[k], Messages(data)[k], HasNull(data));
    }
  }

  lemma MonthNamesNoDash()
    ensures forall m :: m in MonthNames ==> '-' !in m
  {
  }

  /** A label splits at its first `-` into the month name and the year text,
      and the year text reads back as the year. */
  lemma TimeLabelParts(tl: seq<Entry<MonthKey>>, asFloat: bool, i: nat)
    requires i < |tl| && tl[i].key.month in MonthNames && tl[i].key.year >= 0
    ensures var y := YearText(tl[i].key.year, asFloat);
      && SplitOnce(TimeLabels(tl, asFloat)[i], "-") == [tl[i].key.month, y]
      && LeadingNumber(y) == tl[i].key.year
  {
    var m, year := tl[i].key.month, tl[i].key.year;
    var y := YearText(year, asFloat);
    var text := TimeLabels(tl, asFloat)[i];
    MonthNamesNoDash();
    assert text == m + "-" + y;
    FindDash(m, y);
    assert text[..|m|] == m && text[|m| + 1..] == y;
    LeadingNumberOf(year, if asFloat then ".0" else "");
  }

  /** Each `time` label of a preprocessed chat splits at its first `-` into
      the month's English name and the year's text, which reads back as
      the year and ends in `.0` exactly when some timestamp was null. */
  lemma MonthlyTimeLabelsOfChat(user: string, data: string, i: nat)
    requires i < |MonthlyTimeline(user, Frame(data))|
    ensures var key := MonthlyTimeline(user, Frame(data))[i].key;
      var y := YearText(key.year, HasNull(data));
      && key.month in MonthNames
      && SplitOnce(MonthlyTimeLabels(user, Frame(data))[i], "-") == [key.month, y]
      && LeadingNumber(y) == key.year
      && y == NatToString(key.year) + (if HasNull(data) then ".0" else "")
  {
    var rows := Frame(data);
    var tl := MonthlyTimeline(user, rows);
    FrameWellFormed(data);
    MonthlyTimelineSpec(user, rows);
    FloatYearsOfChat(data);
    TimeLabelParts(tl, HasNull(data), i);
  }

  // ---------------------------------------------------------------------
  // daily_timeline

  function DateOf(r: Row): Option<Date> {
    if r.fields.Some? then Some(r.fields.value.onlyDate) else None
  }

  /** `groupby('only_date').count()['message']`. */
  function DailyTimeline(user: string, rows: seq<Row>): seq<Entry<Date>> {
    GroupCount(DateLess, FilterMap(DateOf, Selected(user, rows)))
  }

  /** One row per day with messages, each with its number of dated rows of
      the selection, adding up to the dated rows; in a well-formed frame the
      days are in calendar order. */
  lemma DailyTimelineSpec(user: string, rows: seq<Row>)
    ensures var tl, sel := DailyTimeline(user, rows), Selected(user, rows);
      && StrictlyAscending(DateLess, Keys(tl))
      && (forall i :: 0 <= i < |tl| ==> tl[i].count == |Filter(Yields(DateOf, tl[i].key), sel)| > 0)
      && (forall d :: d in Keys(tl) <==> |Filter(Yields(DateOf, d), sel)| > 0)
      && SumCounts(tl) == |Filter(Dated, sel)|
    ensures (forall k :: 0 <= k < |rows| ==> WellFormed(rows[k])) ==>
      var tl := DailyTimeline(user, rows);
      (forall i :: 0 <= i < |tl| ==> ValidDate(tl[i].key)) &&
      (forall i, j :: 0 <= i < j < |tl| ==> ValidDate(tl[i].key) && ValidDate(tl[j].key) && Ordinal(tl[i].key) < Ordinal(tl[j].key))
  {
    var tl, sel := DailyTimeline(user, rows), Selected(user, rows);
    DateLessOrder();
    GroupedBy(DateLess, DateOf, sel);
    DatedRows(DateOf, sel);
    if forall k :: 0 <= k < |rows| ==> WellFormed(rows[k]) {
      forall i | 0 <= i < |tl| ensures ValidDate(tl[i].key) {
        assert Keys(tl)[i] == tl[i].key;
        var r := Witness(DateOf, user, rows, tl[i].key);
        assert WellFormed(r);
      }
      forall i, j | 0 <= i < j < |tl| ensures ValidDate(tl[i].key) && ValidDate(tl[j].key) && Ordinal(tl[i].key) < Ordinal(tl[j].key) {
        assert Keys(tl)[i] == tl[i].key && Keys(tl)[j] == tl[j].key;
        DateLessChronological(tl[i].key, tl[j].key);
      }
    }
  }

  // ---------------------------------------------------------------------
  // week_activity_map, monthly_activity_map

  function DayNameOf(r: Row): Option<string> {
    if r.fields.Some? then Some(r.fields.value.dayName) else None
  }

  function MonthNameOf(r: Row): Option<string> {
    if r.fields.Some? then Some(r.fields.value.month) else None
  }

  /** `df['day_name'].value_counts()`. */
  function WeekActivityMap(user: string, rows: seq<Row>): seq<Entry<string>> {
    MostCommon(FilterMap(DayNameOf, Selected(user, rows)), None)
  }

  /** `df['month'].value_counts()`. */
  function MonthlyActivityMap(user: string, rows: seq<Row>): seq<Entry<string>> {
    MostCommon(FilterMap(MonthNameOf, Selected(user, rows)), None)
  }

  /** Each weekday with messages, once, with its number of dated rows of the
      selection, counts never increasing and adding up to the dated rows;
      in a well-formed frame the keys are weekday names, so at most seven. */
  lemma WeekActivityMapSpec(user: string, rows: seq<Row>)
    ensures var wm, sel := WeekActivityMap(user, rows), Selected(user, rows);
      && (forall i :: 0 <= i < |wm| ==> wm[i].count == |Filter(Yields(DayNameOf, wm[i].key), sel)| > 0)
      && (forall i, j :: 0 <= i < j < |wm| ==> wm[i].count >= wm[j].count)
      && (forall d :: d in Keys(wm) <==> |Filter(Yields(DayNameOf, d), sel)| > 0)
      && SumCounts(wm) == |Filter(Dated, sel)|
    ensures (forall k :: 0 <= k < |rows| ==> WellFormed(rows[k])) ==>
      var wm := WeekActivityMap(user, rows);
      |wm| <= 7 && forall i :: 0 <= i < |wm| ==> wm[i].key in WeekdayNames
  {
    var wm, sel := WeekActivityMap(user, rows), Selected(user, rows);
    Tallied(DayNameOf, sel);
    DatedRows(DayNameOf, sel);
    if forall k :: 0 <= k < |rows| ==> WellFormed(rows[k]) {
      forall i | 0 <= i < |wm| ensures Keys(wm)[i] in WeekdayNames {
        assert Keys(wm)[i] == wm[i].key;
        var r := Witness(DayNameOf, user, rows, wm[i].key);
        assert WellFormed(r);
      }
      DistinctWithin(Keys(wm), WeekdayNames);
    }
  }

  /** Each month name with messages, once, with its number of dated rows of
      the selection, counts never increasing and adding up to the dated
      rows; in a well-formed frame the keys are month names, so at most
      twelve. */
  lemma MonthlyActivityMapSpec(user: string, rows: seq<Row>)
    ensures var mm, sel := MonthlyActivityMap(user, rows), Selected(user, rows);
      && (forall i :: 0 <= i < |mm| ==> mm[i].count == |Filter(Yields(MonthNameOf, mm[i].key), sel)| > 0)
      && (forall i, j :: 0 <= i < j < |mm| ==> mm[i].count >= mm[j].count)
      && (forall m :: m in Keys(mm) <==> |Filter(Yields(MonthNameOf, m), sel)| > 0)
      && SumCounts(mm) == |Filter(Dated, sel)|
    ensures (forall k :: 0 <= k < |rows| ==> WellFormed(rows[k])) ==>
      var mm := MonthlyActivityMap(user, rows);
      |mm| <= 12 && forall i :: 0 <= i < |mm| ==> mm[i].key in MonthNames
  {
    var mm, sel := MonthlyActivityMap(user, rows), Selected(user, rows);
    Tallied(MonthNameOf, sel);
    DatedRows(MonthNameOf, sel);
    if forall k :: 0 <= k < |rows| ==> WellFormed(rows[k]) {
      forall i | 0 <= i < |mm| ensures Keys(mm)[i] in MonthNames {
        assert Keys(mm)[i] == mm[i].key;
        var r := Witness(MonthNameOf, user, rows, mm[i].key);
        assert WellFormed(r);
      }
      DistinctWithin(Keys(mm), MonthNames);
    }
  }

  // ---------------------------------------------------------------------
  // activity_heatmap

  function PeriodOf(r: Row): Option<string> {
    if r.fields.Some? then Some(r.period) else None
  }

  function DayPeriodOf(r: Row): Option<(string, string)> {
    if r.fields.Some? then Some((r.fields.value.dayName, r.period)) else None
  }

  /** A pivot table: sorted row and column labels and a count per cell. */
  datatype Heatmap = Heatmap(days: seq<string>, periods: seq<string>, cells: seq<seq<nat>>)

  /** `pivot_table(index='day_name', columns='period', values='message',
      aggfunc='count').fillna(0)`. */
  function ActivityHeatmap(user: string, rows: seq<Row>): (h: Heatmap)
    ensures |h.cells| == |h.days| && forall i :: 0 <= i < |h.days| ==> |h.cells[i]| == |h.periods|
  {
    var sel := Selected(user, rows);
    var pairs := FilterMap(DayPeriodOf, sel);
    var days := Sort(StringLess, Unique(FilterMap(DayNameOf, sel)));
    var periods := Sort(StringLess, Unique(FilterMap(PeriodOf, sel)));
    Heatmap(days, periods,
      seq(|days|, i requires 0 <= i < |days| =>
        seq(|periods|, j requires 0 <= j < |periods| => multiset(pairs)[(days[i], periods[j])])))
  }

  /** Labels of a sorted index: ascending, once each, exactly the values
      that occur. */
  lemma SortedLabels(f: Row -> Option<string>, sel: seq<Row>)
    ensures var ls := Sort(StringLess, Unique(FilterMap(f, sel)));
      && StrictlyAscending(StringLess, ls)
      && forall x :: x in ls <==> |Filter(Yields(f, x), sel)| > 0
  {
    var xs := FilterMap(f, sel);
    StringLessOrder();
    SortDistinct(StringLess, Unique(xs));
    forall x ensures multiset(xs)[x] == |Filter(Yields(f, x), sel)| {
      FilterMapCount(f, sel, x);
    }
  }

  /** Rows: the weekdays with dated messages, sorted; columns: their
      periods, sorted; each cell counts the dated rows of the selection on
      that weekday in that period, so a pair without messages is 0. */
  lemma ActivityHeatmapSpec(user: string, rows: seq<Row>)
    ensures var h, sel := ActivityHeatmap(user, rows), Selected(user, rows);
      && StrictlyAscending(StringLess, h.days)
      && StrictlyAscending(StringLess, h.periods)
      && (forall d :: d in h.days <==> |Filter(Yields(DayNameOf, d), sel)| > 0)
      && (forall p :: p in h.periods <==> |Filter(Yields(PeriodOf, p), sel)| > 0)
      && (forall i, j :: 0 <= i < |h.days| && 0 <= j < |h.periods| ==>
            h.cells[i][j] == |Filter(Yields(DayPeriodOf, (h.days[i], h.periods[j])), sel)|)
  {
    var h, sel := ActivityHeatmap(user, rows), Selected(user, rows);
    SortedLabels(DayNameOf, sel);
    SortedLabels(PeriodOf, sel);
    forall i, j | 0 <= i < |h.days| && 0 <= j < |h.periods|
      ensures h.cells[i][j] == |Filter(Yields(DayPeriodOf, (h.days[i], h.periods[j])), sel)|
    {
      FilterMapCount(DayPeriodOf, sel, (h.days[i], h.periods[j]));
    }
  }
}
