# Pink Morsels sales dashboard: the cleaning pipeline and region filter

This Dafny project models the data side of the Pink Morsels sales dashboard
(`app_final.py`) and proves properties of it:

- **`robust_parse_dates`** (module `DateCascade`, files `Cascade.dfy` and
  `Calendar.dfy`). Each date token is stripped and then resolved by the first
  strategy that succeeds. The strategies, in order:
  1. pandas' lenient day-first parse;
  2. the five explicit formats `%d/%m/%Y`, `%m/%d/%Y`, `%Y-%m-%d`, `%d-%m-%Y`, `%m-%d-%Y`, each tried only on positions still missing;
  3. pandas' default parse, used only to fill positions still missing.

  The method `RobustParseDates` runs the cascade the way the source does. It
  keeps an array of optional dates and updates it in place, format by format,
  on the masked positions, and it breaks out early once nothing is missing. It
  is proved equal to the value-level specification `ParseDates`, which gives
  each token the first success among its seven candidate results. The explicit
  formats are modelled concretely in `Calendar`:
  - the token is split on the separator;
  - day and month are 1-2 digits, the year exactly 4;
  - the month is in 1..12 and the day within that month, with Gregorian leap years;
  - the date must fit a nanosecond pandas `Timestamp` (1677-09-22 to 2262-04-11).
- **The cleaning steps of `load_data`** (module `Loader`). These cover:
  - header normalisation (`strip` then `title`);
  - the column lookups and the errors they raise;
  - the numeric coercion of `Sales` and the date cascade on `Date`;
  - `dropna` on those two columns and the stable sort by date;
  - the normalised `Region` and its case-folded key.

  The whole pipeline is the function `Clean`. The method `LoadData` computes the
  same result with the imperative cascade.
- **The string methods** `str.strip`, `str.title` and `str.casefold` (module
  `Text`), over ASCII.
- **The region options and the `update_graph` filter** (module `Regions`). The
  options are the sorted distinct region keys, each labelled with its title
  case, then the "All" option. Selecting `"all"` gives the whole table; any
  other value gives the rows whose key equals it, in table order.

The pandas parsers and the numeric parser stand in as parameters:
- `Library.mixed`, `Library.dayFirst` and `Library.monthFirst` are batch parsers: each maps the whole column to one optional date per token. With `format="mixed"` (line 19) pandas parses every element on its own. The two calls without `format` (lines 21 and 32) guess one format for the column from its first non-missing entry, so a token's result can depend on the other tokens. A batch function covers both cases, since a per-token parser is one that ignores the rest of the column.
- What the model assumes of them:
  - each returns one result per token, in order;
  - each reads the missing-value spellings `""`, `nan`, `NaN`, `NAN`, `NaT`, `nat` and `NAT` as missing;
  - each reads the words `now` and `today` as some date (the current time, which the model leaves open);
  - `dayFirst` and `monthFirst` never raise (see "## Left out").
- `Library.mixedRaises` says whether `format="mixed"` raises on a column.
- `toNumeric` plays `pd.to_numeric` on one cell.

A cell is `Option<string>`; `None` is a cell the CSV reader took as missing,
which `astype(str)` renders as `"nan"`.

The model follows pandas 2.x. Two behaviours it relies on are specific to that line:
- a parsed date must fit a nanosecond `Timestamp`, 1677-09-22 to 2262-04-11;
- `astype(str)` turns a missing cell into the text `"nan"`.

In pandas 3.0, string parsing infers the resolution, so the first bound no longer applies as written. With its default `str` dtype, `astype(str)` keeps a missing cell missing.

Three details of the code that the model follows:
- The final parse at app_final.py:32 calls `pd.to_datetime` without `dayfirst`, so stage 3 is month-first.
- Every token is stripped before any parser sees it (line 17).
- CSV path resolution (lines 36-45) tries two paths: the `SALES_CSV` override or the default, then `pink_morsels_sales.csv`. This part is not modelled (see below).

## Model

| member | source | states |
|---|---|---|
| DateCascade.RobustParseDates | app_final.py:16-33 | The in-place cascade (stage 1, the masked format loop with its early exit, the fillna fallback) returns exactly the first-success specification `ParseDates` for every input |
| DateCascade.FormatStage | app_final.py:22-30 | The format loop, entered only when stage 1 left a gap and left early once nothing is missing, leaves every position resolved by stage 1 and the five formats in order |
| DateCascade.FormatLoop | app_final.py:23-28 | The loop over the five formats, left at the first format that finds nothing missing, leaves every position resolved by stage 1 and the five formats in order |
| DateCascade.ParseMasked | app_final.py:24-28 | The masked assignment changes exactly the missing positions, each to format k's reading of its stripped token |
| DateCascade.Refill | app_final.py:24-28 | After a format pass, present dates are kept and each missing one becomes the format's reading of its token |
| DateCascade.ParseDates | app_final.py:16-33 | One optional date per input token: the output has the input's length |
| DateCascade.StripAll | app_final.py:17 | Every token is stripped, one per input cell |
| DateCascade.FirstStage | app_final.py:18-21 | Stage 1 gives one optional date per token: the `format="mixed"` parse when it does not raise, and otherwise the plain day-first parse |
| DateCascade.AnyMissing | app_final.py:22 | When no position is reported missing, every position holds a date |
| DateCascade.Candidates | app_final.py:16-33 | A token's strategy results are, in order, stage 1's, the five formats' in their listed order, and the default parse's |
| DateCascade.FirstSuccess | app_final.py:16-33 | The cascade's choice among a token's strategy results is missing iff every strategy failed, and otherwise is the result of the earliest strategy that succeeded |
| DateCascade.FirstSuccessSnoc | app_final.py:31-32 | A later strategy changes a token's result only when every earlier one failed, and then its own result is taken |
| DateCascade.FirstSuccessPrefix | app_final.py:24-28 | Once the first n strategies resolve a token, the later ones cannot change it (a resolved position is never overwritten) |
| DateCascade.FirstSuccessAt | app_final.py:16-33 | When strategy k succeeds and all before it failed, the result is strategy k's |
| DateCascade.TryFirstStage | app_final.py:18-21 | The stage-1 column (the `format="mixed"` parse, or the plain day-first parse when that raises) is the first strategy applied to every token |
| DateCascade.TryFormat | app_final.py:23-30 | Assigning format k's parse to exactly the masked (missing) positions applies one more strategy in priority order |
| DateCascade.TryFormatAt | app_final.py:23-28 | On one token, format k's reading counts only when stage 1 and the formats before k all failed |
| DateCascade.NothingMissing | app_final.py:22-26 | When no position is missing, the formats not yet tried change nothing, so the early `break` (and skipping the loop) is sound |
| DateCascade.TryFallback | app_final.py:31-32 | Filling the still-missing positions from the default parse of the whole column, or keeping the column when nothing is missing, completes the cascade |
| DateCascade.MissingMask | app_final.py:24-25 | The mask marks exactly the missing positions, and it holds a true entry iff some position is missing |
| DateCascade.FillMissing | app_final.py:32 | `fillna` keeps every present value and takes every missing one from the fallback column |
| DateCascade.FirstSuccessWins | app_final.py:16-33 | The strategy that decides a token is the first that succeeds on it, whatever later strategies would say |
| DateCascade.StageOneKept | app_final.py:19-32 | A token stage 1 parsed keeps stage 1's date |
| DateCascade.ClockWordStageOne | app_final.py:17-21 | A token that strips to `now` or `today` is parsed by stage 1, whichever of its two parsers runs, and keeps that date, so it never reaches the explicit formats |
| DateCascade.FormatDecides | app_final.py:23-28 | An explicit format decides a token when stage 1 and every earlier format failed on it |
| DateCascade.EarlierStrategiesFail | app_final.py:23-28 | Stage 1 and the formats before k failing on a token imply that the first k + 1 strategies fail on it |
| DateCascade.FallbackDecides | app_final.py:31-32 | The default parse decides a token when every other strategy failed on it |
| DateCascade.MissingExactlyWhenAllFail | app_final.py:16-33 | A token ends up missing iff stage 1, all five formats and the default parse all fail on it |
| DateCascade.SuccessKept | app_final.py:24-28 | A token resolved by the first n strategies keeps that result when more strategies follow |
| DateCascade.EarlierStrategiesAllFail | app_final.py:31-32 | When stage 1 and all five formats fail on a token, nothing before the default parse resolves it |
| DateCascade.AllCandidatesFail | app_final.py:16-33 | Every strategy fails on a token iff stage 1, each of the five formats and the default parse fail on it |
| DateCascade.NaTSpellingFormats | app_final.py:23-28 | No explicit format reads a date from a missing-value spelling such as `nan` or the empty string |
| DateCascade.NaTSpellingMissing | app_final.py:16-33 | A token that strips to a missing-value spelling ends up missing |
| DateCascade.BlankTokenMissing | app_final.py:17-33 | An empty or all-whitespace token ends up missing |
| DateCascade.DayFirstSlashToken | app_final.py:23-28 | A token written `dd/mm/yyyy` that stage 1 left missing gets its date from the first format |
| DateCascade.MonthFirstSlashToken | app_final.py:23-28 | A `mm/dd/yyyy` token with a day above 12, left missing by stage 1, fails the day-first format and gets its date from the second |
| DateCascade.IsoToken | app_final.py:23-28 | A `yyyy-mm-dd` token left missing by stage 1 fails both slash formats and gets its date from the third |
| DateCascade.AmbiguousSlashToken | app_final.py:23-28 | `03/04/2021` is 3 April under the first format and 4 March under the second, and the cascade takes 3 April when stage 1 leaves it |
| Calendar.DaysInMonth | app_final.py:23 | A month has 28 to 31 days, and 29 exactly for February of a leap year |
| Calendar.ParseField | app_final.py:23 | A field is read exactly when it has the allowed number of characters and all are digits, and its value fits in that many digits |
| Calendar.Pad2 | app_final.py:23 | A two-digit field is written with exactly two digits and reads back as its value |
| Calendar.Pad4 | app_final.py:23 | A year is written with exactly four digits and reads back as its value |
| Calendar.DigitsAppend2 | app_final.py:23 | Two more digits shift a field's value by two decimal places |
| Calendar.Split | app_final.py:23 | A token splits into at least one piece, none of which holds the separator |
| Calendar.JoinSplit | app_final.py:23 | Splitting a token on the separator loses nothing: joining the pieces gives it back |
| Calendar.SplitJoin | app_final.py:23 | Separator-free fields joined and split again come back unchanged |
| Calendar.ParseWith | app_final.py:23-28 | A date an explicit format accepts is a real calendar day that a pandas Timestamp can hold |
| Calendar.RenderParse | app_final.py:23-28 | Every representable date written in an explicit format (zero padded) reads back as the same date in that format |
| Calendar.FormatSeparators | app_final.py:23 | The five formats use `/` or `-`, never a digit, as separator |
| Calendar.RenderChars | app_final.py:23 | A date written in a format holds only digits and that format's separator |
| Calendar.ParsedTokenShape | app_final.py:23-28 | A token the model's formats accept holds only digits and that format's separator, so any other character makes every modelled format fail |
| Calendar.WrongSeparator | app_final.py:23-28 | A token without a format's separator never matches that format |
| Calendar.SwappedFieldsRejected | app_final.py:23-28 | A month-first token whose day is above 12 does not match the day-first format |
| Calendar.DayFirstSlashReadings | app_final.py:23 | The first format reads back its own rendering |
| Calendar.MonthFirstSlashReadings | app_final.py:23 | A month-first slash date with day above 12 fails the first format and is read by the second |
| Calendar.IsoReadings | app_final.py:23 | An ISO date fails both slash formats and is read by the third |
| Calendar.AmbiguousReadings | app_final.py:23 | `03/04/2021` is the rendering of 3 April day-first and reads as 4 March month-first |
| Text.IsSpace | app_final.py:17 | The characters `strip` removes are exactly the ASCII whitespace Python recognises: tab, line feed, vertical tab, form feed, carriage return, the four separators 0x1C-0x1F, and space |
| Text.Strip | app_final.py:17 | `strip` leaves no whitespace at either end, returns a middle slice of its input, and removes only whitespace |
| Text.TrimmedBothEnds | app_final.py:17 | Cutting leading and then trailing whitespace leaves a middle slice with no whitespace at either end, and only whitespace was cut |
| Text.StripLeft | app_final.py:17 | The leading whitespace is removed and nothing else |
| Text.StripRight | app_final.py:17 | The trailing whitespace is removed and nothing else |
| Text.StripBlank | app_final.py:17 | A string of whitespace only strips to the empty string |
| Text.StripStripped | app_final.py:47 | A string with no surrounding whitespace is left alone by `strip` |
| Text.StripIdempotent | app_final.py:47 | Stripping twice is stripping once |
| Text.StripPadded | app_final.py:47 | Whitespace of any length around a word is exactly what `strip` removes |
| Text.Casefold | app_final.py:52 | `casefold` keeps the length, leaves no upper-case letter, and changes nothing but letter case |
| Text.Title | app_final.py:47 | `title` keeps the length and which characters are letters, changes only letter case, leaves every other character alone, and makes a letter upper case exactly when it starts the string or follows a non-letter |
| Text.TitleFrom | app_final.py:47 | `title` keeps length and casedness and changes only letter case; a letter becomes upper case exactly when no letter precedes it directly |
| Text.TitleWord | app_final.py:47 | A run of letters title-cases to its first letter upper case and the rest lower case |
| Text.TitleIdempotent | app_final.py:47 | Title-casing twice is title-casing once |
| Text.TitleOfCasefold | app_final.py:51-52 | `title` ignores the case it is given |
| Text.CasefoldOfTitle | app_final.py:51-52 | Case-folding a title-cased string gives the case-folded original |
| Text.TitleKeepsStripped | app_final.py:47 | Title casing keeps a stripped string stripped |
| Loader.AsText | app_final.py:17 | `astype(str)` gives a present cell's text and `nan` for a missing cell |
| Loader.ToNumber | app_final.py:48 | A missing `Sales` cell is missing as a number; a present one is `to_numeric` of its text |
| Loader.NormalizeHeaders | app_final.py:47 | Each normalised column name is stripped, title-cased, and case-folds to the same string as its stripped original; there is one per column |
| Loader.NormalizeHeader | app_final.py:47 | A normalised header has no surrounding whitespace, is title-cased, and differs from the stripped original only in letter case |
| Loader.NormalizeHeaderIdempotent | app_final.py:47 | Normalising a normalised header changes nothing |
| Loader.HeaderVariants | app_final.py:47 | Two headers normalise alike iff they are equal once stripped and case-folded |
| Loader.PaddedWord | app_final.py:47 | Any casing of a word, with any whitespace around it, becomes the word with an upper-case initial and the rest lower case (so `" sales "` and `SALES` both become `Sales`) |
| Loader.Column | app_final.py:48-51 | A lookup succeeds iff exactly one column has the name, and then gives its position; it fails with a key error when no column has the name, and with a not-a-series error when several do |
| Loader.Locate | app_final.py:48-51 | The three lookups succeed iff `Sales`, `Date` and `Region` are each present and unique; otherwise the error is that of the first failing one, in the order Sales, Date, Region |
| Loader.ColumnText | app_final.py:49 | The `Date` column handed to the cascade holds one text per row, each cell's `astype(str)` text |
| Loader.Coerce | app_final.py:48-49 | Row i gets the cascade's date i and the numeric reading of its `Sales` cell, keeping its cells; there is one per row |
| Loader.DropIncomplete | app_final.py:50 | A row is kept, with its values, iff both its date and its sales figure are present; nothing is imputed |
| Loader.DropConcat | app_final.py:50 | Dropping works row by row, keeping input order |
| Loader.DropComplete | app_final.py:50 | A table whose rows are all complete loses no row |
| Loader.InsertByDate | app_final.py:50 | Inserting into a date-sorted sequence keeps it sorted and adds exactly the row, placed after every row dated earlier and ahead of the rows of its own date |
| Loader.SortByDate | app_final.py:50 | The sort's output is in non-decreasing date order, a permutation of its input, and keeps the rows of each date in input order (stable) |
| Loader.SortSorted | app_final.py:50 | Sorting a sorted table changes nothing |
| Loader.StableSortUnique | app_final.py:50 | Only one date-sorted sequence keeps the per-date order of a given one, so the stable sort's result is determined |
| Loader.RegionName | app_final.py:51 | A region name has no surrounding whitespace and is title-cased |
| Loader.RegionKey | app_final.py:51-52 | The key is the case-folded, stripped cell text, which is the same as `casefold(title(strip(cell)))` |
| Loader.RegionNameFromKey | app_final.py:51-52 | The display name is the title case of the key |
| Loader.RegionKeyMatchesName | app_final.py:51-52 | Two cells share a key iff they share a display name |
| Loader.NorthSpellings | app_final.py:51-52 | `north`, ` North` and `NORTH` all get the key `north` |
| Loader.Assemble | app_final.py:48-52 | The cleaned rows are in non-decreasing date order. A record is present iff it comes from an input row with both a date and a sales figure, carrying that row's cells and its region name and key. The rows are a permutation of the complete rows, and rows of one date keep file order |
| Loader.WithRegions | app_final.py:51-52 | Adding region names and keys keeps every row's date, sales figure and cells, and its position |
| Loader.CompleteKept | app_final.py:50 | A row with both a date and a sales figure survives the drop |
| Loader.AssembledRows | app_final.py:50-52 | A record is in the output iff some complete input row yields it |
| Loader.CleanedRowsHaveDateCell | app_final.py:49-50 | Every cleaned row had a `Date` cell: a cell the reader left empty becomes `nan`, which no parser reads, so its row is dropped |
| Loader.Clean | app_final.py:47-52 | Cleaning fails iff a required column is missing or duplicated after header normalisation, with that column's error. Otherwise it yields the assembled table over the cascade's dates for the located `Date` column |
| Loader.LoadData | app_final.py:47-52 | Running the imperative date cascade inside the loader gives exactly `Clean`'s result |
| Regions.StrLt | app_final.py:56 | Python's string order: a is before b iff they agree up to some position k where a ends and b goes on, or where a's character is smaller than b's |
| Regions.StrLtIrreflexive | app_final.py:56 | Python's string order is irreflexive |
| Regions.StrLtTransitive | app_final.py:56 | Python's string order is transitive |
| Regions.StrLtTotal | app_final.py:56 | Any two different strings are ordered one way or the other |
| Regions.InsertKey | app_final.py:56 | Adding a key to a strictly sorted key list keeps it strictly sorted and adds exactly that key |
| Regions.Keys | app_final.py:56 | The key column holds each row's region key, in table order |
| Regions.SortedUnique | app_final.py:56 | `sorted(unique(keys))` is strictly increasing and holds exactly the keys that occur |
| Regions.StrictlySortedUnique | app_final.py:56 | There is only one strictly sorted list of a given set of keys |
| Regions.RegionOptions | app_final.py:56-58 | The options are the distinct keys in increasing order, each labelled with its title case, followed by one last `All`/`all` option; a key has an option iff some row has it |
| Regions.CleanedNormalized | app_final.py:51-52 | Every cleaned row's key is its case-folded region name, and that name is title-cased |
| Regions.OptionLabelIsRegion | app_final.py:57 | An option's label is the region name its rows carry |
| Regions.WithKey | app_final.py:161 | The selection holds exactly the rows whose key equals the value |
| Regions.WithKeyConcat | app_final.py:161 | Selection works row by row, keeping table order |
| Regions.NoneBeforeSelection | app_final.py:161 | A date no later than every row of the table is no later than every selected row |
| Regions.WithKeySorted | app_final.py:161 | Selecting from a date-ordered table gives a date-ordered table |
| Regions.Filtered | app_final.py:157-161 | `"all"` gives the whole table unchanged. Any other value gives exactly the rows whose key equals it, as the selection `WithKey`, which keeps table order (`WithKeyConcat`) |
| Regions.TitleSuffix | app_final.py:157-162 | The chart title suffix is `All Regions` for `"all"`; for any other value it is title-cased (title-casing it again changes nothing) and case-folds to the same string as the value |
| Regions.RegionOptionSelects | app_final.py:157-162 | Choosing a region option (one of those built at lines 56-58) shows a non-empty set: all of that region's rows and only them, under a title equal to the option's label |
| Regions.RowUnderOneOption | app_final.py:157-161 | Every row has an option among those built at lines 56-58, and among the region options it shows exactly under the one whose value is its key |
| Regions.RegionNamedAll | app_final.py:56-58 | A region spelled `All` yields a second option labelled `All` with value `all`, and choosing it shows the whole table, since `update_graph` (line 158) takes `all` for every region |

## Left out

- CSV path resolution and reading (app_final.py:36-46): the `SALES_CSV` environment variable, the existence checks, `pd.read_csv` and the `SystemExit`. These are file-system I/O; the model starts from the table as read, column names and cells.
- The heuristics of pandas' lenient parsers (stage 1, its exception fallback, and stage 3) and of `pd.to_numeric`. They are library code and are parameters of the model. Whether `format="mixed"` raises is the parameter `mixedRaises`.
- The exceptions of the two unguarded parser calls. The day-first parse at app_final.py:21 sits in the `except` branch, and the default parse at line 32 sits outside any `try`. The model assumes that neither raises: `Library.dayFirst` and `Library.monthFirst` are total. In the source, an exception from either leaves `robust_parse_dates` and ends `load_data`.
- The `try`/`except` around each explicit format (app_final.py:27-30). With `errors="coerce"`, a format attempt yields missing values rather than raising, so that branch is never taken in the model.
- Calendar.ParseWith: pandas reads `now` and `today` as the current time under any format, and the model's formats reject them. Stage 1 already reads both words (`ClockWordStageOne`), so neither can reach the explicit formats at line 28.
- Time of day. Dates are year, month and day. A library-parsed value with a time is represented by its date only, so the sort compares days.
- Calendar.ParseWith: strptime's `%d` also accepts a space before a one-digit day, as in `"01/ 5/2021"` under `%m/%d/%Y`. The model rejects such tokens. `%m` and `%Y` have no such alternative. A spaced day that starts the token never reaches a format, because every token is stripped first (line 17).
- Calendar.ParseWith: strptime's `\d` in `%Y` and `%d` also matches non-ASCII decimal digits, which `int()` reads. The model accepts ASCII digits only.
- Unicode. `strip`, `title` and `casefold` are modelled on ASCII; every other character is uncased and not whitespace.
- `read_csv` type inference. A cell is text or missing, and a numeric `Sales` column is covered by `toNumeric`.
- Duplicate column names after normalisation are modelled as an error (`NotASeries`). In pandas the selection returns a frame, and the series operations applied to it raise.
- The chart (`make_figure`, the price-change marker), the page layout, the Dash callback wiring and the server start-up (app_final.py:60-156, 163-166). These are UI over a framework that is not part of this model; `update_graph` is modelled only up to the rows it selects and the title suffix it passes on.
- data/script.py, a one-shot merge script, and test_app.py, browser tests of the page, are not part of this model.
