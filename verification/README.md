# Feed comparator: the feed-diff engine

A Dafny model of the feed-diff engine of the CIAN feed comparator bot. The bot is
given two XML product feeds, an old one and a new one. It reports, for every
`Object/ExternalId` found in either feed, whether the identifier was
**Preserved** (in both), is **Missing** (only in the old feed) or is **New**
(only in the new feed). The model covers the pure part of `compare_feeds` in
`bot.py`:

- `Text` (`text.dfy`): Python's argument-less `str.strip()` over the
  characters `str.isspace()` accepts.
- `Extraction` (`extraction.dfy`): the identifier set of one feed. The input
  is the `text` of each element the `.//Object/ExternalId` path matched, as a
  `seq<Option<string>>`. Elements whose text is absent or empty are skipped.
  Every other text is stripped and added to a set.
- `Classification` (`classification.dfy`): the two loops that build `result`.
  Python iterates a `set` in an unspecified order, so each loop's iteration
  order is a parameter. It can be any duplicate-free sequence that lists
  exactly the set (`Enumerates`). The first loop runs over `old_ids`. The
  second runs over the separate set `new_ids - old_ids`. Every property is
  proved for every such order. `ClassifyLoops` is the imperative form of the
  loops. `Classify` is the functional form.
- `Report` (`report.dfy`): the empty-result check and the report table. The
  table is the header `ExternalId, Status, Details` followed by one
  three-field line per row. A reader (`ReadReport`) is the partner that the
  round trip is proved against.
- `Comparison` (`comparison.dfy`): the whole engine. It takes two feeds that
  were already parsed, or failed to parse, and returns one outcome: the parse
  error, "no ExternalIds", or the report.
- `Wrappers` (`wrappers.dfy`): `Option`.

Three behaviours of the code are worth stating plainly:

- Whitespace-only element text is not discarded. `if el.text` only rejects
  `None` and `""`. So the text `"  "` passes the guard and strips to the
  identifier `""`, which then gets a report row (`ExtractKeepsBlank`,
  `BlankIdentifierReported`).
- The no-report test is `not result`. It is proved equivalent to both
  identifier sets being empty (`ClassifyEmptyIff`, `CompareFeeds`).
- Rows are not sorted. Their order is Python's set iteration order, so the
  model leaves the order open and proves its properties for every order.
  Every set has such an order (`EnumerationExists`).

## Model

| member | source | states |
|---|---|---|
| Text.Strip | bot.py:46 | `el.text.strip()`: left strip then right strip. Its meaning is stated by `TrimStartIsMaximal`, `TrimEndIsMaximal` and `StripIsInfix` |
| Text.TrimStartIsMaximal | bot.py:46 | Stripping the left side removes exactly the longest whitespace prefix: the result is a suffix, everything dropped is whitespace, and the result does not start with whitespace |
| Text.TrimEndIsMaximal | bot.py:46 | Stripping the right side removes exactly the longest whitespace suffix: the result is a prefix, everything dropped is whitespace, and the result does not end with whitespace |
| Text.StripIsInfix | bot.py:46 | `strip()` returns the infix of the text whose surroundings are all whitespace and which neither starts nor ends with whitespace |
| Text.StripIdempotent | bot.py:46 | Stripping an already stripped identifier changes nothing |
| Text.StripEmptyIff | bot.py:46 | A text strips to `""` exactly when every character in it is whitespace |
| Text.StripPadded | bot.py:46 | Whitespace around a core is removed and the core is kept intact (`"  42  "` gives `"42"`) |
| Extraction.Extract | bot.py:46-47 | The set comprehension with its `if el.text` guard, element by element. Its meaning is stated by `ExtractMembership` |
| Extraction.ExtractMembership | bot.py:46-47 | An identifier is in the set exactly when some matched element has present, non-empty text that strips to it |
| Extraction.ExtractAppend | bot.py:46-47 | The identifier set of a concatenation of matched elements is the union of the parts' sets |
| Extraction.ExtractOrderInsensitive | bot.py:46-47 | Reordering the matched elements does not change the identifier set |
| Extraction.ExtractDuplicate | bot.py:46-47 | Repeating an element adds nothing, so duplicate identifiers collapse |
| Extraction.ExtractSkipsEmpty | bot.py:46 | An element whose text is absent or empty is skipped: removing it leaves the set unchanged |
| Extraction.ExtractKeepsBlank | bot.py:46 | Non-empty whitespace-only text passes the guard and puts the identifier `""` into the set |
| Extraction.ExtractExamples | bot.py:46 | `"  42  "` yields exactly `{"42"}`, and an empty or absent text yields nothing |
| Classification.ClassifyOld | bot.py:51-53 | The first loop gives one row per old identifier, in iteration order, each built by `OldRow` as at lines 52-53. The row is `Preserved` exactly when the identifier is in the new set, otherwise `Missing`, never `New`, with that status's detail |
| Classification.ClassifyAdded | bot.py:54-55 | The second loop gives one `New` row with the detail "Only in new feed" per identifier of `new_ids - old_ids`, in iteration order |
| Classification.Classify | bot.py:50-55 | `result` has one row per old identifier, then one row per new-only identifier, and its identifiers follow the two iteration orders |
| Classification.ClassifyLoops | bot.py:50-55 | The two appending loops build exactly the functional `result`, for any iteration orders of the two sets |
| Classification.ClassifySound | bot.py:51-55 | Every row carries the status that set membership calls for (in both: `Preserved`; old only: `Missing`; new only: `New`) and that status's fixed detail. No old identifier is labelled `New` |
| Classification.ClassifyComplete | bot.py:50-55 | The row identifiers are exactly `old_ids \| new_ids`, no identifier is on two rows, and `len(result)` equals the size of the union |
| Classification.ClassifyOrder | bot.py:51-55 | The first `len(old_ids)` rows are exactly the non-`New` rows, and every `New` row comes after all `Preserved`/`Missing` rows |
| Classification.ClassifyEmptyIff | bot.py:50-58 | `result` is empty exactly when both identifier sets are empty |
| Classification.ClassifyExample | bot.py:50-55 | Old `{A, B}` and new `{B, C}` give A Missing, B Preserved, C New, each with its detail |
| Report.FieldRows | bot.py:66 | The rows written by `writerows` are one three-field line per row, in order, each being `Fields(row)` = `[id, status name, detail]` |
| Report.Render | bot.py:58-66 | No report is produced exactly when `result` is empty. Otherwise the report is the header `Header` = `ExternalId, Status, Details` (line 65) followed by each row's `Fields`, in order: `len(result) + 1` lines, each with three fields |
| Report.RenderRoundTrip | bot.py:63-66 | A produced report reads back to exactly the rows it was rendered from, in the same order |
| Classification.EnumerationExists | bot.py:51-54 | Every identifier set has an iteration order, so the loops' order parameters exclude no pair of sets |
| Comparison.CompareFeeds | bot.py:46-66 | A parse error in the old feed, and otherwise in the new feed, is the outcome, and a parse error is the outcome only then. "No ExternalIds" is the outcome exactly when both feeds parse and yield no identifier. A report is produced exactly when both parse and yield some identifier; it has the header and one line per identifier of the union |
| Comparison.LinesCorrect | bot.py:51-66 | Every data line of a rendered classification has the status name and detail that its identifier is due |
| Comparison.LinesCover | bot.py:50-66 | Every identifier of either set is on exactly one data line, and no other identifier is on any line |
| Comparison.ReportContents | bot.py:46-66 | For two feeds: every data line of a produced report is correct for its identifier, and every extracted identifier is on exactly one data line |
| Comparison.BlankIdentifierReported | bot.py:46-66 | A whitespace-only `ExternalId` in the old feed leads to a report with a data line for the identifier `""` |

## Left out

- Fetching the feeds with `requests.get(..., timeout=10)` (bot.py:42-43) is network I/O. The model starts from documents that were already fetched, and fetch errors are not modelled.
- XML parsing and the `.//Object/ExternalId` path match (bot.py:46-47) are library calls. A feed enters the model as `Document`: either `Malformed` with an abstract reason, or the list of matched element texts. Parser behaviour such as entity expansion and line-end normalisation is not modelled.
- CSV quoting, line terminators, `StringIO`/`BytesIO` and UTF-8 encoding (bot.py:63-74) are library behaviour. The report is modelled at the level of lines and fields only, so the byte-level round trip through the CSV format is not modelled.
- The reply texts sent for each outcome (bot.py:59, 70-81) are user-facing messaging. The outcomes themselves are modelled (`InvalidXml`, `NoExternalIds`, `Produced`).
- Of the three exception handlers (bot.py:76-81), only the `ET.ParseError` one is modelled, as `InvalidXml`. `ET.fromstring` can also fail with other exceptions. For example, an unknown `encoding=` declaration raises `LookupError`, which reaches the generic handler at bot.py:80-81. Such a feed can only be given to the model as `Malformed`, so the model answers `InvalidXml` where the program answers with its generic "Error: ..." reply.
- The Telegram conversation (`start`, `get_old_feed`, `cancel`, `main`, per-user `user_data`; bot.py:24-33, 85-113) is transport and session glue. The Flask health endpoints (app.py, bot.py:20-22) are HTTP plumbing.
- Bot credentials and the webhook address are configuration and are not reproduced.
- Python's set iteration order is not computed. It is a parameter constrained only by `Enumerates`.
