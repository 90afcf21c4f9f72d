# Cause-list parser, modelled in Dafny

This project models `cause_list_parser.py`. The script reads a court's daily
cause list (a PDF of numbered cases) and turns it into case records:
court number, serial, petitioner, respondent and page. It then answers
requests such as `3/10` with a line of the form
`3/10 - Petitioner Vs Respondent`, or `3/10 - NOT FOUND`.

The model follows the program's steps.

- **Text** (`text.dfy`). The Python string operations the parser relies on:
  `strip`, `split`, `" ".join`, `splitlines`, ASCII case mapping, `int` and `str`.
- **Patterns** (`patterns.dfy`). Each regular expression written out by hand
  as a predicate: `SERIAL_RE`, `VERSUS_RE`, `COURT_NUM_RE`, `CHIEF_JUSTICE_RE`
  and `IGNORE_HEAD`. Also the boilerplate test `is_meta_line`.
- **Normalize** (`normalize.dfy`). The name normaliser `smart_title`, as a
  function over tokens with the two fixed word sets.
- **Geometry** (`geometry.dfy`). A page given as data: its text, its text
  blocks, its words and its size. Also `detect_court_number` (a method with
  the early-exit block scan) and `page_split_x`.
- **ReadingOrder** (`order.dfy`). The stable sort of a page's blocks by top
  edge, then left edge, each rounded to one decimal.
- **Parser** (`parser.dfy`). The walk of `parse_pdf` over pages, blocks and
  lines.
  - `ParsePdf`, `ParsePage`, `ParseBlock` and `HandleLine` are the source's
    nested loops. Each is proved equal to a fold: `RunDoc`, `PageStep`,
    `RunLines` and `LineStep`.
  - The record being filled (`current`, which in Python aliases a dictionary
    inside `items`) is an index into the record sequence.
- **ParseProperties** (`parse_props.dfy`). What the walk guarantees, proved
  on the folds:
  - the order in which a line's rules are tried;
  - that each slot is written at most once;
  - the court and page of every record;
  - what the final filter keeps.
- **RecordIndex** (`index.dfy`). The first-wins index `build_index` (a
  method with its loop) and `format_line`. Also the answer to one requested
  reference, and the loop over the references.

### Where the code and its documented intent differ

The model follows the code in each of these cases.

- **The `kept` set is tested as `w.upper() in kept`**, not by exact
  membership.
  - So `ltd.` is copied as written.
  - `T.P.(Crl.)` and `Ltd.`, the two mixed-case entries, can never match,
    so `T.P.(Crl.)` becomes `T.p.(crl.)`.
  - Shown by `Normalize.KeptIsTestedInUpperCase` and
    `Normalize.KeptMissesMixedCase`.
- **`smart_title` is not idempotent in general.** The final `strip(" ,.-")`
  can expose a small word at either end.
  - Shown by `Normalize.FrontSmallWordExposed` and
    `Normalize.BackSmallWordExposed`.
  - Idempotence is proved when that strip removes nothing
    (`Normalize.SmartTitleIdempotentWhenUntrimmed`).
- **In the left column the serial test runs before the boilerplate test.**
  So `12 No. x` opens a record with serial `12` instead of being skipped
  (`ParseProperties.CaseNumberLineByColumn`).
- **The rest of a serial line is discarded.**
  - A block reading `5  Petitioner One` / `versus` / `Respondent One` opens
    record `5` and leaves its petitioner unset.
  - `Respondent One` fills the respondent and ends the capture, since the
    `versus` line armed it (`ParseProperties.SerialLineRestIsDropped`).
  - The petitioner stays unset: with no capture pending, only a later
    left-column content line could name it (`ParseProperties.LineStepSlots`).
- **A `versus` line arms the respondent capture in either column.**
  - Right-column lines never fill a slot.
  - A `versus` line in the right column still sets the flag
    (`ParseProperties.RightColumnOnlyArmsCapture`).
- **An empty name is final.** A petitioner line that normalises to `""`
  (for example `,`) fills the slot and blocks any later petitioner. The
  record is then dropped by the final filter
  (`ParseProperties.CommaPetitionerDropsRecord`).

## Model

| member | source | states |
|---|---|---|
| Text.StripIsSlice | cause_list_parser.py:99 | `raw.strip()` is the slice of the line between its leading and trailing whitespace, and it does not end in whitespace |
| Text.SplitJoin | cause_list_parser.py:28-34 | splitting tokens joined with single spaces gives the tokens back |
| Text.NatToStringRoundTrip | cause_list_parser.py:133 | the decimal text of a court number, read back with `int`, is that number |
| Patterns.SerialMatchSucceedsIffRegexMatches | cause_list_parser.py:11 | `SERIAL_RE.match` succeeds exactly when some split of the line fits: leading whitespace, 1 to 3 digits, an optional period with digits, then a word boundary |
| Patterns.SerialMatchPrefersFraction | cause_list_parser.py:11 | when the fractional form fits, the captured serial is `digits.fraction` |
| Patterns.SerialMatchFallsBackToDigits | cause_list_parser.py:11 | when only the bare digit run fits, the serial is that digit run |
| Patterns.SerialWithFraction | cause_list_parser.py:11 | `115.30 Some text` captures `115.30` |
| Patterns.SerialFractionBacktracks | cause_list_parser.py:11 | `115.30x` captures `115` |
| Patterns.SerialRejectsFourDigits | cause_list_parser.py:11 | `1234 text` is not a serial line |
| Patterns.SerialNeedsWordBoundary | cause_list_parser.py:11 | `12abc` is not a serial line |
| Patterns.VersusIsWholeLine | cause_list_parser.py:14 | a line is a "versus" line exactly when, stripped and lower-cased, it is `versus` or `versus.` |
| Patterns.PilSuffixIsWordBoundary | cause_list_parser.py:45 | the `PIL(?:-W\|\b)` test is the same as `PIL` between word boundaries |
| Patterns.MetaNoteInsideWord | cause_list_parser.py:17-21 | the bare `NOTE` of `IGNORE_HEAD` also hits `Noted`, which is skipped |
| Patterns.MetaRomanHeading | cause_list_parser.py:41-42 | `XIV-A`, a Roman numeral with a letter suffix, is boilerplate |
| Patterns.CaseNumberMarkIsMeta | cause_list_parser.py:39-40 | any line holding `No.` at the start or after a character that is not a letter, digit or underscore is boilerplate |
| Patterns.MetaCaseNumberLine | cause_list_parser.py:39-40 | `12 No. x` is boilerplate |
| Patterns.RomanHeadingIff | cause_list_parser.py:41-42 | the Roman-heading test holds exactly when the line is a non-empty run of `I`, `V`, `X`, `L`, `C`, alone or followed by `-` and one capital letter that end the line |
| Patterns.CourtNumberAtIffRegexMatches | cause_list_parser.py:12 | the matcher finds a number at a position exactly when some split of the text there fits `COURT`, whitespace, `NO`, an optional period, whitespace, an optional colon or hyphen, whitespace and digits (ignoring case); the number is then that of the whole digit run |
| Patterns.CourtNumberSearchIsLeftmost | cause_list_parser.py:12 | `COURT_NUM_RE.search` returns the number at the leftmost match, and nothing exactly when the pattern matches nowhere |
| Patterns.CourtNumberExample | cause_list_parser.py:12 | `COURT NO. 2` gives court 2 |
| Patterns.ChiefJusticeAtIffRegexMatches | cause_list_parser.py:13 | the matcher finds the phrase at a position exactly when some split of the text there fits `CHIEF`, at least one whitespace, `JUSTICE`, an optional `'`, `S`, at least one whitespace, `COURT`, letters compared without case |
| Patterns.ChiefJusticePossessive | cause_list_parser.py:13 | `Chief Justice's Court` is the chief justice's phrase |
| Patterns.ChiefJusticePlural | cause_list_parser.py:13 | `CHIEF  JUSTICES COURT`, with two spaces and no apostrophe, is the phrase |
| Patterns.ChiefJusticeDetachedS | cause_list_parser.py:13 | `CHIEF JUSTICE S COURT` is not: the `S` must follow `JUSTICE` or its apostrophe directly |
| Patterns.ChiefJusticeJoined | cause_list_parser.py:13 | `ChiefJustice's Court` is not: `CHIEF` and `JUSTICE` need whitespace between them |
| Normalize.NormTokenRules | cause_list_parser.py:29-33 | a token with a digit, an all-upper-case dotted token, or one whose upper-case form is in `kept` is copied; any other keeps its letters; a small word after the first position comes out lower-case, and every other token comes out capitalised |
| Normalize.NormTokenDetermined | cause_list_parser.py:29-33 | a token that is not copied comes out as the only string with its letters that is lower-case (a small word after the first position) or capitalised (any other) |
| Normalize.NormTokenIdempotent | cause_list_parser.py:29-33 | recasing a token twice is the same as once |
| Normalize.KeptIsTestedInUpperCase | cause_list_parser.py:25-29 | `ltd.` is kept as written because its upper-case form is in `kept` |
| Normalize.KeptMissesMixedCase | cause_list_parser.py:25-33 | `T.P.(Crl.)` is not protected and becomes `T.p.(crl.)` |
| Normalize.SmartTitleOnlyRecases | cause_list_parser.py:24-34 | `smart_title` changes only the case of the letters of the stripped, single-spaced, edge-trimmed line |
| Normalize.SmartTitleShape | cause_list_parser.py:24-34 | the result is single-spaced and neither starts nor ends with a space, comma, period or hyphen |
| Normalize.SmartTitleBlank | cause_list_parser.py:24-34 | a blank line gives `""` |
| Normalize.SmartTitleIdempotentWhenUntrimmed | cause_list_parser.py:23-34 | when the final strip removes nothing, normalising again changes nothing |
| Normalize.SmartTitleOfTwo | cause_list_parser.py:28-34 | for two tokens the result is the first token recased at position 0 and the second at position 1, joined and edge-trimmed |
| Normalize.FrontSmallWordExposed | cause_list_parser.py:33-34 | `-v x`, with `v` a small word other than `@` and `x` a word that does not end in a space, comma, period or hyphen, gives `v` in lower case followed by the recased `x`; normalising that again capitalises `v`, so the result changes |
| Normalize.BackSmallWordExposed | cause_list_parser.py:33-34 | `x v-`, with `v` a small word other than `@` and `vs.` and `x` a word that does not start with a space, comma, period or hyphen, gives the recased `x` followed by `v` capitalised; normalising that again lower-cases `v`, so the result changes |
| Geometry.DetectCourtNumber | cause_list_parser.py:54-66 | the method with the early-exit block loop returns the court of the page (`CourtOfPage`) |
| Geometry.CourtOfPageFallback | cause_list_parser.py:54-66 | the chief justice's phrase in the page text gives 1; else the first `COURT NO` number in the text; else the first mention among the blocks before the first one ending below y = 180 |
| Geometry.BlockScanStopsAtLimit | cause_list_parser.py:61-62 | blocks after the first one past the header limit are never looked at |
| Geometry.SplitAtAdvocateHeading | cause_list_parser.py:68-73 | with an "advocate" heading in the top 35% of the page, the split is the smallest left edge of such a heading |
| Geometry.SplitAfterPartyHeading | cause_list_parser.py:74-76 | otherwise, with a "petitioner/respondent" heading there, the split is 10 past the largest right edge of such a heading |
| Geometry.SplitByDefault | cause_list_parser.py:77 | with neither heading the split is 70% of the page width |
| Geometry.MinX0 | cause_list_parser.py:73 | `min(w[0] ...)` is the left edge of one of the words and no more than any of them |
| Geometry.MaxX1 | cause_list_parser.py:76 | `max(w[2] ...)` is the right edge of one of the words and no less than any of them |
| ReadingOrder.RoundTenthsIsNearest | cause_list_parser.py:91 | `round(x, 1)` gives a nearest tenth, a tie going to the even one |
| ReadingOrder.RoundTenthsMonotone | cause_list_parser.py:91 | rounding keeps the order of coordinates |
| ReadingOrder.SortBlocksSorted | cause_list_parser.py:90-91 | the sorted blocks are in order of (rounded top, rounded left) |
| ReadingOrder.SortBlocksPermutes | cause_list_parser.py:90-91 | sorting neither loses nor duplicates a block |
| ReadingOrder.SortBlocksStable | cause_list_parser.py:90-91 | blocks with equal keys keep their order, as in Python's stable `sort` |
| ReadingOrder.SortBlocksKeepsSorted | cause_list_parser.py:90-91 | blocks already in order are left as they are |
| Parser.ParsePdf | cause_list_parser.py:80-128 | the page loop returns `ParseSpec(pages)`: the complete records of the walk over every page |
| Parser.ParsePage | cause_list_parser.py:84-126 | one page: its court (detected, else the last one carried over), its split, its blocks in reading order, and the walk from a fresh `current` and capture flag |
| Parser.ParseBlock | cause_list_parser.py:96-126 | the lines of one block, walked in order |
| Parser.HandleLine | cause_list_parser.py:98-126 | the `continue` chain for one line equals the line rule `LineStep` |
| ParseProperties.SerialLineOpensRecord | cause_list_parser.py:103-110 | a left-column serial line appends a record with that page's court and page number, the captured serial and no names; it becomes `current`, and the capture is cleared |
| ParseProperties.OnlySerialLinesOpenRecords | cause_list_parser.py:103-126 | any other line appends no record and keeps `current` |
| ParseProperties.MetaLineIsSkipped | cause_list_parser.py:112-113 | a boilerplate line that is not a left-column serial changes nothing |
| ParseProperties.VersusLineArmsCapture | cause_list_parser.py:115-117 | a "versus" line only sets the capture flag, in either column |
| ParseProperties.RightColumnOnlyArmsCapture | cause_list_parser.py:97-126 | a right-column line changes nothing except that a "versus" line sets the capture flag |
| ParseProperties.LineStepSlots | cause_list_parser.py:119-126 | a line changes only the current record; a set name is never changed; the petitioner is set only by a left-column content line, when it is unset and no capture is pending; the respondent only during a capture, which the line then ends; and the value is `smart_title` of the line |
| ParseProperties.RunLinesExtends | cause_list_parser.py:98-126 | over a block, records are only appended, and names once set stay set |
| ParseProperties.RunBlocksExtends | cause_list_parser.py:96-126 | the same over the blocks of a page |
| ParseProperties.RunBlocksOnPage | cause_list_parser.py:93-126 | during a page, earlier records stay as they are, and every record the page opens carries its court and page number |
| ParseProperties.PageStepFacts | cause_list_parser.py:84-126 | a page keeps the earlier records as a prefix; its new records carry its court and `pno + 1`; the carried court changes exactly when the page names a truthy court |
| ParseProperties.LastDetected | cause_list_parser.py:86-87 | the carried court is None or truthy |
| ParseProperties.LastCourtIsLastDetected | cause_list_parser.py:82-87 | after any number of pages, the carried court is the last truthy court a page named |
| ParseProperties.CourtInForce | cause_list_parser.py:86 | the court of a page is None or truthy: a detected 0 falls back |
| ParseProperties.EarlierPagesAreFinal | cause_list_parser.py:84-126 | the records of the first n pages form a prefix of all the records |
| ParseProperties.RecordsCarryPageAndCourt | cause_list_parser.py:84-108 | every record carries the page number it was opened on and that page's court (detected, else the last truthy one before) |
| ParseProperties.RecordsInPageOrder | cause_list_parser.py:84-108 | records come in order of their page numbers |
| ParseProperties.ResultIsCompleteRecords | cause_list_parser.py:128 | the result holds exactly the records with a truthy court, petitioner and respondent |
| ParseProperties.ResultInOpeningOrder | cause_list_parser.py:128 | around any record, the result is what is kept of the records opened before it, then that record when it is complete, then what is kept of the records opened after it: order and multiplicity are those of `items` |
| ParseProperties.EarlierResultsArePrefix | cause_list_parser.py:84-128 | the result for the first n pages is the start of the result for the whole document |
| Seqs.FilterAppend | cause_list_parser.py:128 | the comprehension over `a + b` is the comprehension over `a` followed by the one over `b` |
| ParseProperties.EmptyNameIsFinal | cause_list_parser.py:120-128 | a record whose name is `""` never becomes complete |
| ParseProperties.CaseNumberLineByColumn | cause_list_parser.py:103-113 | `12 No. x` opens record `12` in the left column and is boilerplate in the right one |
| ParseProperties.CommaPetitionerDropsRecord | cause_list_parser.py:119-128 | a petitioner line `,` sets the petitioner to `""`, and the record is then dropped |
| ParseProperties.SerialLineRestIsDropped | cause_list_parser.py:103-126 | `5  Petitioner One` / `versus` / `Respondent One` opens record `5` and leaves it current, with no petitioner, with `smart_title("Respondent One")` as respondent, and with the capture ended |
| RecordIndex.CourtText | cause_list_parser.py:133 | the text of a court is non-empty and has no `/` |
| RecordIndex.BuildIndex | cause_list_parser.py:130-136 | the loop builds the first-wins index `IndexOf` |
| RecordIndex.IndexHasRecordKeys | cause_list_parser.py:130-136 | the index holds exactly the keys of the records |
| RecordIndex.IndexMapsToFirst | cause_list_parser.py:132-135 | each key maps to the earliest record with that key |
| RecordIndex.IndexKeysMatch | cause_list_parser.py:133-135 | each key of the index is the key of the record it maps to |
| RecordIndex.KeyDeterminesRecordId | cause_list_parser.py:133 | two records have the same key only when they have the same court and serial |
| RecordIndex.LookupAnswers | cause_list_parser.py:168-170 | a reference no record has gets `"{r} - NOT FOUND"`; any other gets `format_line` of the first record with that key; either answer starts with the reference |
| RecordIndex.AnswerRefs | cause_list_parser.py:168-170 | one answer per reference, in order |
| RecordIndex.FormatLineExample | cause_list_parser.py:138-139 | court 3, serial `10`, parties `Abc Ltd.` and `Xyz` give `3/10 - Abc Ltd. Vs Xyz` |
| RecordIndex.CapturedSerialIsSerialText | cause_list_parser.py:11 | a serial captured by `SERIAL_RE` is made of digits and periods only |
| RecordIndex.FormatLineNamesKey | cause_list_parser.py:138-139 | for a serial of digits and periods, the text of `format_line` before its first ` - ` is the record's key `court/serial` |
| RecordIndex.FormatLineIdentifiesRecord | cause_list_parser.py:133-139 | two answer lines for serials of digits and periods start with the same reference only when the records have the same court and serial |

## Left out

- PyMuPDF (`fitz.open`, `load_page`, `get_text`, `page.rect`). A page is given as data: its text, its blocks in the order the library returns them, its words, and its width and height.
- The command line in `main` (lines 141-166): argparse, splitting `--refs`, reading `--refs-file` and printing. The answers to the requests are returned as a sequence, and the exit on an empty request list is not modelled.
- `--dump-all` (lines 152-156). It sorts keys with `(int(c), float(s))`, a floating-point order of the serials, and prints every record.
- Floating point. Coordinates and `round(x, 1)` are exact reals rounded half to even, and `h*0.35`, `width*0.70` and `+10` are exact.
- Unicode. Case mapping, `isdigit`, `\d` and `\w` cover ASCII only. The case-insensitive patterns (`IGNORE_HEAD`, `VERSUS_RE`, `COURT_NUM_RE`, `CHIEF_JUSTICE_RE` and the filing codes) compare ASCII letters only, so they miss the few non-ASCII letters that `re.IGNORECASE` folds onto ASCII ones: `ſ` (long s) onto `s`, the Kelvin sign `K` onto `k`, and `İ` and `ı` onto `i`. Whitespace for `strip`, `split` and `\s` is Python's full `isspace` set, and `splitlines` breaks on all of Python's line-boundary characters.
- app.py, the web front end. It wraps the same functions and repeats the lookup loop.
- Regular expressions in general. Each pattern is written out as its own predicate, with the backtracking of `SERIAL_RE` stated as its alternatives.
