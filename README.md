# Shin Kong news digest: classifier and formatter

This project models the core of a small news digest bot in Dafny and proves
properties of the model. The bot fetches news items about 新光金控 (Shin Kong
Financial), files each item under a category by keywords in its title, and
formats one text message for a chat channel.

- `news.dfy` (module `News`):
  - a news item has the four fields the fetcher builds;
  - the category mapping is an insertion-ordered sequence of (label, items)
    pairs, because a Python dict keeps insertion order and the formatter
    relies on that order.
- `classifier.dfy` (module `Classifier`) models `classify_news`:
  - the fixed four-category keyword table;
  - the nested loop with its first-match `break`;
  - the `setdefault` fallback bucket `📌 其他`.

  The method `ClassifyNews` keeps the source's loops and is proved equal to a
  declarative definition, `Classified`: one entry per table label, in table
  order, holding the items filed under it, plus a trailing fallback entry
  when some item matched nothing.
- `formatter.dfy` (module `Formatter`) models `format_message`:
  - the dated header line;
  - one section per non-empty category;
  - two lines per item;
  - Python's `str.strip()`, with the full `str.isspace()` character set.

  The method `FormatMessage` keeps the source's loops and is proved equal to
  `Strip(Render(d, date))`.
- `pipeline.dfy` (module `Pipeline`) models the top-level script:
  - classify, format, and send only when the message is non-empty;
  - the send decision as evidently intended (see Findings).

## Model

| member | source | states |
|---|---|---|
| Classifier.ClassifyNews | classifier.py:1-18 | The result equals `Classified(Categories, news)`: every table label in order with the items filed under it, then a fallback entry only if some item matched no category |
| Classifier.CategoriesWellFormed | classifier.py:2-7 | The four labels of the table are distinct, and none is the fallback label `📌 其他` |
| Classifier.Contains | classifier.py:12 | Python's `k in title` on strings; its meaning is proved by `ContainsIffOccurs` (no contract of its own) |
| Classifier.Matches | classifier.py:12 | `any(k in title for k in keywords)`, scanning keywords in order; its meaning is proved by `MatchesIffSomeKeyword` (no contract of its own) |
| Classifier.FirstMatch | classifier.py:11-15 | The inner loop with its `break`: the index of the first category whose keywords match, if any; its contract bounds the index, and `FirstMatchSpec` states first-match |
| Classifier.CategoryOf | classifier.py:11-17 | The label an item goes to: that of its first matching category, else `📌 其他`; `CategoryOfRange` bounds it (no contract of its own) |
| Classifier.Place | classifier.py:13-17 | `result[cat].append(item)` and `result.setdefault(cat, []).append(item)`; stated by `PlaceAt`, `PlaceNew` and `PlaceAddsOne` (no contract of its own) |
| Classifier.Classified | classifier.py:8-17 | The declarative result: each table label with its bucket, then the fallback entry if non-empty; stated by `ClassifiedKeys`, `LookupClassified`, `ClassifiedPartition` and `ClassifiedExactlyOne` (no contract of its own) |
| Classifier.IsPrefixIff | classifier.py:12 | The character-by-character prefix test holds iff the first `|k|` characters of `s` are `k` |
| Classifier.ContainsIffOccurs | classifier.py:12 | Substring test `k in title` holds iff `k` occurs at some position of the title (the empty keyword occurs everywhere) |
| Classifier.MatchesIffSomeKeyword | classifier.py:12 | `any(k in title for k in keywords)` holds iff some keyword of the list occurs in the title |
| Classifier.FirstMatchSpec | classifier.py:11-15 | The category chosen is the first in table order whose keywords match; none is chosen iff no category matches |
| Classifier.PlaceAddsOne | classifier.py:13-17 | One append adds exactly the item to the dict's contents, as a multiset |
| Classifier.PlaceAt | classifier.py:13 | `result[cat].append(item)` on an existing key appends the item to that entry and changes nothing else |
| Classifier.PlaceNew | classifier.py:17 | `setdefault(...).append(item)` on a missing key adds one last entry holding just the item |
| Classifier.BucketMember | classifier.py:9-17 | An item is in a label's bucket iff it is an input item whose title is filed under that label |
| Classifier.BucketAppend | classifier.py:9 | Buckets keep input order: the bucket of `a + b` is the bucket of `a` followed by that of `b` |
| Classifier.OtherNonEmpty | classifier.py:16-17 | The fallback bucket is non-empty iff some input item matches no category |
| Classifier.ClassifiedKeys | classifier.py:8-17 | The keys are the table labels in order. Then comes the fallback label, and it is present iff some item matched nothing. The keys are distinct |
| Classifier.ColumnSnoc | classifier.py:11-17 | One more item extends a table entry by that item iff the item is filed under that entry's label |
| Classifier.ColumnsSnocAt | classifier.py:11-15 | An item matching category `j` extends entry `j` only |
| Classifier.ColumnsSnocNone | classifier.py:16-17 | An item matching no category leaves every table entry unchanged |
| Classifier.ClassifiedSnocAt | classifier.py:11-15 | Classifying one more item that matches category `j` is one `result[cat].append` on label `j` |
| Classifier.ClassifiedSnocNone | classifier.py:16-17 | Classifying one more item that matches nothing is one `setdefault(Other, []).append` |
| Classifier.ClassifiedSnoc | classifier.py:9-17 | One iteration of the outer loop appends the item under the label it is filed under |
| Classifier.CategoryOfRange | classifier.py:11-17 | An item is always filed under a table label or the fallback label |
| Classifier.ClassifiedHasKey | classifier.py:13-17 | The label an input item is filed under is a key of the result |
| Classifier.LookupClassified | classifier.py:9-17 | Under every key, the result holds exactly the input items filed under it, in input order; an unused key holds nothing |
| Classifier.ClassifiedPartition | classifier.py:9-17 | The lists of the result hold, between them, exactly the input items with their multiplicities, so nothing is lost or duplicated |
| Classifier.ClassifiedSound | classifier.py:9-17 | Every listed item is an unchanged input item listed under the label its title selects |
| Classifier.ClassifiedComplete | classifier.py:9-17 | Every input item is listed in some entry of the result |
| Classifier.ClassifiedExactlyOne | classifier.py:9-17 | Every input item is in exactly one list of the result: some entry holds it, and any entry holding it is that entry |
| Classifier.FirstMatchWins | classifier.py:11-15 | An input item is under table label `j` iff category `j` matches its title and no earlier category does |
| Classifier.FallbackIff | classifier.py:10-17 | An input item is under `📌 其他` iff no category matches its title |
| Classifier.ClassifiedSplit | classifier.py:9-17 | Classifying `a + b` gives under every key the items of `a` under it, then those of `b` |
| Classifier.EarningsExample | classifier.py:3-13 | "新光金控Q3獲利創新高" is filed under `📈 業績 / 財報` (keyword 獲利) |
| Classifier.FirstCategoryWinsExample | classifier.py:11-17 | With two categories sharing a keyword, a title with it goes to the earlier one; a title with no keyword goes to the fallback |
| Formatter.TrimStart | formatter.py:11 | `str.lstrip()`; stated by `TrimStartSpec` (no contract of its own) |
| Formatter.TrimEnd | formatter.py:11 | `str.rstrip()`; stated by `TrimEndSpec` and `TrimEndEmpty` (no contract of its own) |
| Formatter.Strip | formatter.py:11 | `str.strip()` as `rstrip` after `lstrip`; stated by `StripCuts`, `StripSpec` and `StripIdempotent` (no contract of its own) |
| Formatter.Header | formatter.py:4 | The header text with the date, its two newlines added by `Render`; `HeaderVisible` states it starts and ends with visible characters (no contract of its own) |
| Formatter.ItemLines | formatter.py:9 | The title line `- <title>` and the link line `  🔗 <link>` of one item (no contract of its own) |
| Formatter.Lines | formatter.py:8-9 | The item lines of a list in list order; `LinesAppend` states it (no contract of its own) |
| Formatter.Section | formatter.py:6-10 | Nothing for an empty list, else the label line, the item lines and a closing newline; `SectionBlank` states it is blank only when empty (no contract of its own) |
| Formatter.Sections | formatter.py:5-10 | The sections of all categories in mapping order; `SectionsAppend`, `EmptyCategoryVanishes` and `SectionsBlank` state it (no contract of its own) |
| Formatter.Render | formatter.py:4-10 | The message before the final strip: header, two newlines, sections; `FormatMessage` is proved to build it (no contract of its own) |
| Formatter.TrimStartSpec | formatter.py:11 | `lstrip()` returns the longest suffix not starting with whitespace; what it cuts off is whitespace |
| Formatter.TrimEndSpec | formatter.py:11 | `rstrip()` returns the longest prefix not ending with whitespace; what it cuts off is whitespace |
| Formatter.TrimEndEmpty | formatter.py:11 | `rstrip()` returns the empty string iff the text is all whitespace |
| Formatter.StripCuts | formatter.py:11 | `strip()` result is a contiguous slice of the input with only whitespace before and after it |
| Formatter.StripSpec | formatter.py:11 | `strip()` cuts only whitespace runs at both ends, and the result neither starts nor ends with whitespace |
| Formatter.StripIdempotent | formatter.py:11 | Stripping twice equals stripping once |
| Formatter.TrimEndAfter | formatter.py:11 | A prefix ending in a visible character survives `rstrip()` whole |
| Formatter.FormatMessage | formatter.py:3-11 | The text built by the loops equals the strip of the header, a blank line, and the category sections in mapping order |
| Formatter.AppendSection | formatter.py:6-10 | One iteration appends nothing for an empty list; otherwise it appends the label line, the title and link lines per item, and a blank line |
| Formatter.LinesAppend | formatter.py:8-9 | Item lines are rendered in list order: the lines of `a + b` are those of `a` then those of `b` |
| Formatter.SectionsAppend | formatter.py:5-10 | Sections are rendered in mapping order: the sections of `a + b` are those of `a` then those of `b` |
| Formatter.EmptyCategoryVanishes | formatter.py:5-6 | A category with an empty list contributes no label line and no blank line |
| Formatter.SectionBlank | formatter.py:6-10 | A category's section is all whitespace iff its list is empty |
| Formatter.SectionsBlank | formatter.py:5-10 | All the sections together are whitespace iff every category list is empty |
| Formatter.HeaderVisible | formatter.py:4 | The header line starts and ends with a visible character |
| Formatter.StripHeaded | formatter.py:4-11 | Stripping text that starts with a visible line keeps that line and strips only the rest |
| Formatter.FormatStartsWithHeader | formatter.py:4-11 | The message is always the full header followed by the `rstrip` of the rest |
| Formatter.HeadedStripped | formatter.py:11 | A visible line followed by stripped text is non-empty, has visible ends, and is its own strip |
| Formatter.MessageStripped | formatter.py:4-11 | The message is never empty, starts and ends with a visible character, and stripping it again changes nothing |
| Formatter.BlankRest | formatter.py:4-11 | A line followed by a stripped blank line and `sec` is that line alone iff `sec` is all whitespace |
| Formatter.HeaderOnlyIff | formatter.py:4-11 | The message is exactly the header iff every category list is empty |
| Formatter.ExampleSections | formatter.py:5-10 | One category with one item, then an empty category: the sections are the label line, the two item lines, and one blank line |
| Formatter.DropBlankTail | formatter.py:10-11 | Stripping removes a closing blank line after visible text and nothing else |
| Formatter.StripsClosingBlank | formatter.py:4-11 | When the sections end in a visible line and the closing blank line, the message is the header, a blank line, and the sections without that blank line |
| Formatter.FormatExample | formatter.py:3-11 | The full message for the example above: the empty category leaves no trace, and the trailing blank line is gone |
| Pipeline.Message | main.py:6-8 | The message of a run: the strip of the rendered classification; `AlwaysSends` and `EmptyRunSendsHeader` state it (no contract of its own) |
| Pipeline.Outgoing | main.py:10-15 | The corrected send decision: the message only when some category holds an item; `OutgoingIff` states it (no contract of its own) |
| Pipeline.Run | main.py:6-10 | A run's message is the formatted classification of the fetched items; it is sent iff that message is non-empty |
| Pipeline.AlwaysSends | main.py:8-10 | The formatted message is never empty, so the `if message:` guard always passes |
| Pipeline.EmptyRunSendsHeader | main.py:6-10 | With no items fetched, the message sent is exactly the header line |
| Pipeline.OutgoingIff | main.py:10-15 | The intended send decision sends nothing iff no item was fetched; whatever it sends is the formatted digest and more than the bare header |

## Findings

| source | as written | input that shows it | evidently intended | confidence | as-written member | corrected member |
|---|---|---|---|---|---|---|
| main.py:10-15 | `if message:` decides between pushing and printing "No news to send.", but `format_message` always returns at least the header line, so the `else` branch is dead | an empty list of fetched items: the message is the bare header, and it is pushed | push nothing when no item was classified | medium, not executed | Pipeline.AlwaysSends | Pipeline.OutgoingIff |

- Pipeline.EmptyRunSendsHeader is the concrete instance of the finding: an empty fetch yields a message of exactly the header.
- Pipeline.Outgoing is the corrected decision: it sends `None` when no category holds an item.

## Left out

- `datetime.today().strftime('%Y/%m/%d')` is a clock read. The date is a string parameter of `Header`, `Render` and `FormatMessage`, and its format is not modelled.
- Fetching the feed (news_fetcher.py), pushing to the chat API (line_push.py), the webhook echo server (echo_webhook.py) and the `print` calls of main.py are network and console I/O. They are not modelled. `Pipeline.Run` takes the fetched items as a parameter and returns the send decision instead of sending.
- An item keeps its four fields (title, link, published time, summary). Only `title` and `link` are read. Python's dict-valued items are modelled as a datatype, so items with extra or missing keys are not modelled.
- Python strings are sequences of code points, modelled as `seq<char>`. Matching is exact, with no case folding or normalisation, as in the source.
- `str.strip()` is modelled with Python's whitespace set as written out in `Formatter.Whitespace`. Other Unicode details are not modelled.
- A Python dict is modelled as an ordered sequence of (key, list) pairs. Aliasing between the dict's lists and the caller's objects is not modelled: lists are values.
- The code has none of the following, so none is modelled:
  - title normalisation;
  - duplicate and near-duplicate detection;
  - admission filters;
  - summaries and short links;
  - per-category item counts in the header;
  - message-length truncation;
  - a fixed "no news today" message.

  On the last point the code sends the bare header (see Findings).
