# WhatsApp chat analyzer — a verified model of its core

The analyzer reads an exported WhatsApp chat. Each line of the export starts
with a prefix such as `12/31/23, 21:05 - `. The program turns the text into a
table of messages with these columns:

- the timestamp;
- the sender, or `group_notification` for system lines;
- the message body;
- the date columns derived from the timestamp (year, month number, month
  name, day, date, hour, minute, weekday name);
- a one-hour period label such as `"21-22"`.

The analyzer then computes statistics over the messages of one sender, or of
all senders when "Overall" is selected:

- the message, word, media and link counts;
- the busiest senders;
- the most common words and emoji;
- the monthly and daily timelines;
- the weekday and month activity;
- a weekday × period heatmap.

The sidebar offers the list of senders to choose from.

This project models that core in Dafny and proves what each step promises.
It has these modules:

- `Preprocessor` (`preprocessor.dfy`) models `preprocess`:
  - the timestamp-prefix pattern, as a deterministic reader of eight "digit
    run then separator" steps;
  - `re.split` and `re.findall`, as one leftmost, non-overlapping scan;
  - `pd.to_datetime(..., errors='coerce')`, as a validator returning `Option`;
  - the split of each message at its first `": "`;
  - the derived date columns;
  - the period labels.

  The two loops of the source are the methods `SplitSenders` and `Periods`.
  `Preprocess` composes them and returns exactly the frame that the function
  `Frame` specifies.
- `Helper` (`helper.dfy`) models every extractor of helper.py, over a frame
  given as a sequence of rows. The two extractors that build a list in a loop
  (`most_common_words`, `emoji_helper`) are methods with loop invariants.
  The others are functions with lemmas.
- `App` (`app.dfy`) models the sidebar list (app.py:25-29) as a method that
  reassigns the list step by step: `unique`, `remove`, `sort`, `insert`.
- Supporting modules:
  - `Text`: digits, decimal values, Python's string order, `str.split()`,
    `str.split(sep, 1)`.
  - `Calendar`: Gregorian dates, day counts, weekdays, chronological order.
  - `Scanning`: the leftmost-match scan for an arbitrary matcher.
  - `Steps`: a sequence of field readers.
  - `Counting`:
    - `collections.Counter`;
    - `most_common`, a stable sort by count;
    - `groupby(...).count()` over sorted keys.
  - `Series`: masks (`df[mask]`), derived columns with nulls dropped, and
    `unique()`.
  - `Orders`: insertion sort under a strict total order.
  - `Wrappers`: `Option`.

Pandas behaviour that decides results is written out:

- `groupby` and `value_counts` drop null keys.
- `groupby` and `pivot_table` sort their keys. Strings are sorted in code
  point order, dates chronologically, and `(year, month_num, month)`
  lexicographically.
- `pivot_table(...).fillna(0)` gives 0 for a (day, period) pair with no
  messages.
- A single unparsable timestamp turns the `hour` and `year` columns into
  floats.

On that last point the model follows the code, not an integer-only reading of
the program. With a null date, the period labels read `"5.0-6.0"`,
`"23.0-00"`, `"00-1.0"` and `"nan-nan"`, and the monthly timeline labels read
`"March-2023.0"`. `PeriodLabel(h, asFloat)` and `YearText(y, asFloat)` carry
that flag.

## Model

| member | source | states |
|---|---|---|
| Preprocessor.Spans | preprocessor.py:5-8 | the prefix spans found in the chat are ordered, non-overlapping and inside the text |
| Preprocessor.SpansLeftmost | preprocessor.py:7-8 | a list of spans is the leftmost non-overlapping list of timestamp-prefix matches (every span matches, no match starts in the text skipped before or between them) if and only if it is the one the scan returns |
| Preprocessor.Dates | preprocessor.py:8 | `re.findall` yields one prefix text per match |
| Preprocessor.Messages | preprocessor.py:7 | `re.split(...)[1:]` yields one body per match |
| Preprocessor.ChatRoundTrip | preprocessor.py:7-10 | there are as many prefixes as bodies, and the leading fragment followed by each prefix and its body rebuilds the input exactly, trailing newlines included |
| Preprocessor.YearOf | preprocessor.py:13-15 | `%y` maps a two-digit year to the year in 1969..2068 with those last two digits |
| Preprocessor.StampToDateTime | preprocessor.py:13-15 | a parsed timestamp is a valid date and time whose month, day, hour and minute are the prefix's digits and whose year is the `%y` year |
| Preprocessor.StampValidity | preprocessor.py:13-15 | a matched prefix parses if and only if the year has two digits, the month is 1..12, the day exists in that month (leap years included), the hour is 0..23 and the minute 0..59; otherwise the date is null and the row is kept |
| Preprocessor.ToDateTime | preprocessor.py:13-15 | a parsed date is always a valid calendar date and time |
| Preprocessor.DatesParse | preprocessor.py:8-15 | the date of the k-th row is the one denoted by the digit fields of the k-th match in the chat |
| Preprocessor.SplitSender | preprocessor.py:20-26 | with a `": "` in the body, sender + `": "` + message is the body and the sender holds no `": "`; without one, the sender is `group_notification` and the message is the whole body |
| Preprocessor.SplitSenderJoin | preprocessor.py:20-23 | a sender free of `": "` and any message are recovered from sender + `": "` + message |
| Preprocessor.SplitSenders | preprocessor.py:18-29 | the loop yields one sender and one message per body, each pair being that body's split |
| Preprocessor.DeriveFields | preprocessor.py:33-40 | the derived columns of a date are its year, its month 1..12 with the month's English name, its day valid for the month, hour 0..23, minute 0..59 and its weekday's name |
| Preprocessor.FieldsDetermineTimestamp | preprocessor.py:33-40 | two timestamps have the same derived columns if and only if they are equal |
| Preprocessor.HourOf | preprocessor.py:38 | the hour column is null exactly when the date is, and is otherwise the date's hour, 0..23 |
| Preprocessor.ShowHourNoDash | preprocessor.py:46-50 | the text of an hour (its digits, with `.0` when the column is float) never contains `-`, so the first `-` of a label is the separator |
| Preprocessor.PeriodHours | preprocessor.py:43-51 | for every hour h in 0..23 the label starts with h and ends with (h + 1) mod 24 |
| Preprocessor.MidnightHours | preprocessor.py:47-48 | the hour-0 label is exactly `"00-1"` (`"00-1.0"` in a float column), and it starts at 0 and ends at 1 |
| Preprocessor.LateHours | preprocessor.py:45-46 | the hour-23 label is exactly `"23-00"` (`"23.0-00"` in a float column), and it starts at 23 and ends at 0 |
| Preprocessor.DayHours | preprocessor.py:49-50 | the label of the hours 1..22 starts at h and ends at h + 1 |
| Preprocessor.PeriodStartsWithDigit | preprocessor.py:43-51 | every label of a non-null hour starts with a digit |
| Preprocessor.PeriodLabelsDistinct | preprocessor.py:43-51 | two hours get the same label if and only if they are the same hour (or both null) |
| Preprocessor.Periods | preprocessor.py:43-51 | the loop yields one label per hour, each being that hour's label |
| Preprocessor.Frame | preprocessor.py:4-53 | the frame has one row per timestamp-prefix match |
| Preprocessor.FrameAt | preprocessor.py:7-51 | the k-th row is built from the text of the k-th leftmost prefix match and the text from that match's end to the next match's start (or to the end of the chat) |
| Preprocessor.RowOfSpec | preprocessor.py:13-51 | a row holds its parsed date, derived columns exactly when the date is not null, its sender split, and a period label spanning its hour to the next (`"nan-nan"` for a null date) |
| Preprocessor.FrameRow | preprocessor.py:4-53 | each row of the frame carries the date of its match, its body's sender split, the derived columns of its date and the period of its hour |
| Preprocessor.Preprocess | preprocessor.py:4-53 | the method, built from the two loops, returns exactly the specified frame |
| Helper.FrameWellFormed | preprocessor.py:33-40 | every row of a preprocessed chat has derived columns exactly when it has a date, and they are that date's |
| Helper.Selected | helper.py:11-12 | "Overall" selects every row; any other name selects only rows sent by that name |
| Helper.SelectedSpec | helper.py:11-12 | the selection keeps the original order (it distributes over concatenation) and holds each of the sender's rows as often as the frame does, and nothing else |
| Helper.SelectedCount | helper.py:11-12 | a sender's selection has as many rows as the sender occurs in the `user` column |
| Helper.SelectedMember | helper.py:11-12 | a selected row is a row of the frame sent by the selected sender |
| Helper.WordsOfCount | helper.py:15 | the words of the bodies, concatenated in order, are as many as the sum of their `split()` counts |
| Helper.FetchStats | helper.py:10-19 | the message count is the frame's row count for "Overall" and the sender's row count otherwise; the word count is the number of whitespace tokens of the selected bodies, placeholders included; the media count is the number of times `"<Media omitted>\n"` occurs in the selected `message` column, hence at most the message count |
| Helper.MostBusyUsersSpec | helper.py:22-23 | at most five distinct senders, each with their row count, counts non-increasing; a sender left out has no more rows than any listed one and is left out only when five are listed |
| Helper.BusyCountIsMessageCount | helper.py:10-23 | each busy-user count equals the message count `fetch_stats` reports for that sender |
| Helper.MostCommonWords | helper.py:50-60 | the loop's word list is the tokens of the kept rows in order; the result has at most 20 distinct words, each with its number of occurrences, counts non-increasing, equal counts in order of first use |
| Helper.WordsFromKeptRows | helper.py:54-58 | every counted word is a token of a selected row that is neither a `group_notification` nor a media placeholder |
| Helper.WordsWithinStats | helper.py:54-58 | the words counted by `most_common_words` are no more than the word count of `fetch_stats` |
| Helper.EmojisOfText | helper.py:67-70 | the loop's emoji list is the emoji characters of the selected bodies, in order |
| Helper.EmojiCounts | helper.py:72 | every emoji of the text is listed, each once, with its number of occurrences, counts non-increasing and summing to the number of emoji characters |
| Helper.EmojiHelper | helper.py:63-72 | the method's table lists exactly the emoji of the selected bodies, each once, with their occurrence counts, non-increasing, adding up to all emoji characters |
| Helper.MonthlyTimelineSpec | helper.py:75-79 | one row per month with dated messages, months ascending by (year, month number, name), each counting the selected rows of that month; counts add up to the dated selected rows; in a well-formed frame each name is its month's |
| Helper.MediaRows | helper.py:16 | the rows whose message is exactly the media placeholder are as many as the placeholder's occurrences in the `message` column |
| Helper.TimeLabelParts | helper.py:80 | each time label splits at its first `-` into the month name and the year's text, and the year's text starts with the year |
| Helper.MonthlyTimeLabels | helper.py:80 | the `time` column has one label per timeline row |
| Helper.FloatYearsOfChat | preprocessor.py:13-33 | the `year` column of a preprocessed chat is a float column exactly when some timestamp prefix was coerced to null |
| Helper.MonthlyTimeLabelsOfChat | helper.py:79-80 | each `time` label of a preprocessed chat splits at its first `-` into the month's English name and the year's text, which reads back as the year and ends in `.0` exactly when some timestamp was null |
| Helper.DailyTimelineSpec | helper.py:84-88 | one row per date with messages, each counting the selected rows of that date, adding up to the dated selected rows; in a well-formed frame the dates are valid and in calendar order |
| Helper.WeekActivityMapSpec | helper.py:91-94 | one row per weekday name with messages, each counting its rows, counts non-increasing and adding up to the dated selected rows; in a well-formed frame at most seven English weekday names |
| Helper.MonthlyActivityMapSpec | helper.py:97-100 | one row per month name with messages, each counting its rows, counts non-increasing and adding up to the dated selected rows; in a well-formed frame at most twelve English month names |
| Helper.ActivityHeatmap | helper.py:107-112 | the table has one row per weekday label and one column per period label |
| Helper.ActivityHeatmapSpec | helper.py:103-112 | row and column labels are ascending and are exactly the weekdays and periods of dated selected rows; each cell counts the selected rows with that weekday and period, 0 when there are none |
| Counting.CounterOf | helper.py:60 | `Counter` lists each distinct element once, with its number of occurrences, adding up to the length |
| Counting.CounterFirstOccurrenceOrder | helper.py:60 | `Counter` keeps its keys in order of first occurrence |
| Counting.MostCommonRows | helper.py:60 | `most_common(n)` gives distinct elements with their counts, non-increasing, equal counts in first-occurrence order, at most n rows |
| Counting.MostCommonTop | helper.py:60 | an element is left out of `most_common(n)` only when n rows are listed, and each listed element occurs more often than it, or as often and first seen earlier |
| Counting.MostCommonAll | helper.py:72 | `most_common()` lists every element and the counts add up to the length |
| Counting.GroupCountSpec | helper.py:79 | grouping by a strictly ordered key gives ascending keys, each with its number of occurrences |
| Series.Unique | app.py:25 | `unique()` gives each element of the column exactly once |
| App.RemoveFirst | app.py:27 | `list.remove(x)` drops the first occurrence of x and nothing else |
| App.RemoveDistinct | app.py:26-27 | removing a name from a list without duplicates leaves every other name once and drops that name |
| App.SidebarUsers | app.py:25-29 | the list starts with "Overall"; after it come every sender other than `group_notification` exactly once, in ascending order, and nothing else; each of them selects at least one row |

## Left out

- Streamlit UI, charts and upload decoding (app.py outside lines 25-29): presentation and I/O. The chat enters the model as a `string`.
- Word-cloud rendering (helper.py:35-47): a third-party image library with no result to reason about.
- Helper.FetchStats: the link count calls `URLExtract.find_urls`, which is a parameter `findUrls` of the model; its contract says nothing about links.
- Helper.EmojiHelper: `emoji.is_emoji` is a parameter `isEmoji` on characters. The `isinstance(message, str)` guard always holds, because every body is a string in the model.
- Helper.MostBusyUsersSpec: the percentage table (helper.py:24-30) uses floating-point normalisation and rounding and is not modelled.
- Helper.WeekActivityMapSpec: `value_counts` does not specify the order of equal counts. The model uses `Counter`'s first-occurrence order and states only non-increasing counts. The same holds for Helper.MonthlyActivityMapSpec and Helper.MostBusyUsersSpec.
- Preprocessor.MatchEnd: `\d` in Python's `re` matches every Unicode decimal digit, but the model's `\d` is `0`..`9` only. On a chat holding other decimal digits (Arabic-Indic ones, say) `Preprocessor.Spans` can find different prefixes than Python, so the row count, the bodies and the dates can differ.
- Preprocessor.ToDateTime: `\s` in the pattern matches any whitespace character. The parse accepts whatever whitespace the pattern matched, because the whitespace tolerance of `strptime` in pandas is not part of this model.
- `inplace` renames and drops (preprocessor.py:16, 30) are column bookkeeping with no effect on values; the model builds the final row directly.
- Month and weekday names are a fixed English table; locale settings are not modelled.
- Dtypes are modelled only where they reach a value the program shows: the float text of hours and years when a date is null. Column types elsewhere, such as `only_date` being an object column, are not modelled.
- App.SidebarUsers: `remove`, `sort` and `insert(0, ...)` (app.py:27-29) change `user_list` in place. The model reassigns a local sequence value at each step, so it does not capture updating the list in place or aliasing of the list. The order of steps and each step's result are modelled.
- App.SidebarUsers: a sender literally named "Overall" would appear twice in the list and, when chosen, would select every row. The model keeps this behaviour, so the last clause of its contract covers only names other than "Overall".
