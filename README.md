# Autoscout24 listing scrape and cleaning, modelled in Dafny

This project models the data pipeline of the notebook export
`CarDataExplorationBook/_build/jupyter_execute/Projekt.py`. The pipeline has four parts:

- **Page extraction** (`extractPageCarDF`): one listing row per `article` element, and one
  detail row per vehicle detail table with at least nine children. The two tables are then
  merged on their positional indices.
- **Crawl**: every "Erstzulassung bis" filter from 1995 to 2021 is crossed with result pages
  0 to 19. Each page's table is appended to `AutoDFraw`.
- **Cleaning**: the columns of `AutoDF` are rewritten in place, cell by cell: price, mileage,
  owners, consumption, emissions, registration and power. Blanks and some marker values become
  missing (NaN). Electric cars are reset to 0 consumption and 0 emissions. Brand, city, postal
  code, country and five equipment flags are derived.
- **Row filter**: rows lacking consumption, emissions, mileage or power are dropped.

Modules, one per component:

- `Wrappers`: `Option` (a NaN cell or an absent HTML element) and `Result` (an uncaught
  exception).
- `Text`: hand-written string functions. These are the `[^0-9]+` digit strip, Python's
  `str.split` and `\s`, the first and last occurrence of a fixed string, and `str(n)`/`int(s)`.
- `Patterns`: `re.search`, `re.sub` and pandas' list form of `Series.replace` for the few
  fixed-length patterns the notebook uses.
- `Cells`: the per-cell rules.
- `Extraction`: the page extraction. The HTML is already parsed: an `article` is a record of
  optional texts, and a detail table is its list of child texts.
- `Crawl`: the crawl loop. Downloading and parsing a URL is a function parameter.
- `Table`: `AutoDF` as a class whose `rows` the cleaning methods rewrite, and the functions
  that specify them.

Behaviour of the code worth noting:

- A detail table with nine or more children yields a row made from its first nine children
  (lines 136-143).
- The price is cut at the first `",-"` (line 223).
- The missing markers of lines 266-268 are regular expressions searched anywhere in the value.
  So a consumption or emission containing a `-` or the digit `0` becomes missing (for example
  emissions of `120 g/km`). The empty pattern is compared for equality.
- A listing whose wrapper div has neither a price row nor a leasing price raises: the fallback
  at line 122 is outside the `try`, so the exception ends the crawl. The same holds for an
  `article` without a wrapper div: `data` is `None` at line 103 and line 122 calls its `find`. `AutoDFraw` keeps the pages gathered before that
  point.
- The country is the last space-separated word of the second-to-last `-`-part of the location
  (line 303), for example `DE` in `DE-70173 Stuttgart`.
- `astype('int')` (lines 406-409) raises on an empty text and on a value beyond int64
  (2^63 - 1).

## Model

| member | source | states |
|---|---|---|
| `Extraction.ExtractListing` | CarDataExplorationBook/_build/jupyter_execute/Projekt.py:102-131 | each optional element's text goes into its own field; the price is the price row's text with Leasing false when that element exists, otherwise the leasing price's with Leasing true; with no wrapper div or neither price element the article raises |
| `Extraction.ListingRows` | CarDataExplorationBook/_build/jupyter_execute/Projekt.py:102-131 | one row per article, in order, when every article extracts; otherwise the error of the first article that raises |
| `Extraction.MissingSubtitleOnlyThatField` | CarDataExplorationBook/_build/jupyter_execute/Projekt.py:112-115 | an absent subtitle element makes only Untertitel missing; the rest of the row is unchanged |
| `Extraction.MissingAddressOnlyThatField` | CarDataExplorationBook/_build/jupyter_execute/Projekt.py:125-128 | an absent address element makes only Standort missing |
| `Extraction.DetailRow` | CarDataExplorationBook/_build/jupyter_execute/Projekt.py:136-143 | a table yields a row exactly when it has at least nine children; the row takes children 0..8 as km, Erstzulassung, PS, Zustand, Fahrzeughalter, Getriebe, Kraftstoff, Verbrauch, Emissionen |
| `Extraction.DetailRows` | CarDataExplorationBook/_build/jupyter_execute/Projekt.py:135-143 | never more rows than tables |
| `Extraction.DetailRowsConcat` | CarDataExplorationBook/_build/jupyter_execute/Projekt.py:136-143 | the rows of concatenated table lists are the concatenated rows, so retained rows keep their relative order |
| `Extraction.DetailRowsAllLong` | CarDataExplorationBook/_build/jupyter_execute/Projekt.py:136-143 | when every table has nine or more children, the i-th row comes from the i-th table |
| `Extraction.DetailRowsAllShort` | CarDataExplorationBook/_build/jupyter_execute/Projekt.py:140-143 | tables all shorter than nine give no rows |
| `Extraction.DetailRowsFromTables` | CarDataExplorationBook/_build/jupyter_execute/Projekt.py:136-143 | every detail row comes from some table of nine or more children |
| `Extraction.LeasingExtraTableSkipped` | CarDataExplorationBook/_build/jupyter_execute/Projekt.py:140-143 | a leasing car's three-entry table between two full tables is skipped, and the full tables give rows one and two |
| `Extraction.Join` | CarDataExplorationBook/_build/jupyter_execute/Projekt.py:146 | the index merge has length min(listing rows, detail rows) and pairs the i-th listing row with the i-th detail row |
| `Extraction.PageRowsPositional` | CarDataExplorationBook/_build/jupyter_execute/Projekt.py:97-148 | a page whose articles all extract and whose tables are all full pairs each article with the table at the same position |
| `Extraction.ExtractPage` | CarDataExplorationBook/_build/jupyter_execute/Projekt.py:97-148 | the article loop, the detail loop with its inner child loop, and the merge compute the page table specified by `PageRows` |
| `Extraction.Stuck` | CarDataExplorationBook/_build/jupyter_execute/Projekt.py:116-123 | once an article raises, the page fails with that article's error whatever follows it |
| `Crawl.Years` | CarDataExplorationBook/_build/jupyter_execute/Projekt.py:170 | the filters are the 27 years 1995..2021 in increasing order |
| `Crawl.UrlInjective` | CarDataExplorationBook/_build/jupyter_execute/Projekt.py:176 | different (year, page) pairs give different URLs |
| `Crawl.UrlExample` | CarDataExplorationBook/_build/jupyter_execute/Projekt.py:169-176 | year 2020, page 3 gives `https://www.autoscout24.de/lst?fregto=2020&page=3` |
| `Crawl.YearRequests` | CarDataExplorationBook/_build/jupyter_execute/Projekt.py:175 | one year visits pages 0..pages-1 in order |
| `Crawl.ScheduleLength` | CarDataExplorationBook/_build/jupyter_execute/Projekt.py:174-175 | the nested loops make years × pages visits |
| `Crawl.ScheduleAt` | CarDataExplorationBook/_build/jupyter_execute/Projekt.py:174-176 | page p of the i-th year is visit number i·pages + p (year-major, page-minor) |
| `Crawl.ScheduleDistinct` | CarDataExplorationBook/_build/jupyter_execute/Projekt.py:174-176 | with distinct years, no URL is fetched twice |
| `Crawl.ScheduleSize` | CarDataExplorationBook/_build/jupyter_execute/Projekt.py:170-175 | the full crawl makes 27 × 20 = 540 visits |
| `Crawl.ScheduleTwoByTwo` | CarDataExplorationBook/_build/jupyter_execute/Projekt.py:174-175 | years [2020, 2021] with two pages visit (2020,0), (2020,1), (2021,0), (2021,1) in that order |
| `Crawl.CrawlPagesFailure` | CarDataExplorationBook/_build/jupyter_execute/Projekt.py:174-178 | the crawl fails exactly when some visit raises; it then names the first such visit and every earlier visit extracted |
| `Crawl.CrawlAllRows` | CarDataExplorationBook/_build/jupyter_execute/Projekt.py:174-178 | when no page raises, the result is every page's rows concatenated in visit order |
| `Crawl.CrawlPagesStopped` | CarDataExplorationBook/_build/jupyter_execute/Projekt.py:174-178 | after a failure nothing more is visited or appended |
| `Crawl.CrawlPagesContinue` | CarDataExplorationBook/_build/jupyter_execute/Projekt.py:174-178 | crawling a + b appends b's rows after a's, and a failure in b is reported at its position in a + b |
| `Crawl.CrawlPagesSnoc` | CarDataExplorationBook/_build/jupyter_execute/Projekt.py:176-178 | one more visit changes nothing once the crawl has stopped; otherwise it raises at its position or appends its page's rows |
| `Crawl.CrawlAll` | CarDataExplorationBook/_build/jupyter_execute/Projekt.py:167-178 | the crawl loops run over the 27 years of line 170; the result is the crawl of the 540-visit schedule |
| `Crawl.CrawlYears` | CarDataExplorationBook/_build/jupyter_execute/Projekt.py:174-178 | the two loops over any year list give the crawl of that list's schedule: rows of every visit up to the first that raises, and that failure |
| `Crawl.VisitPage` | CarDataExplorationBook/_build/jupyter_execute/Projekt.py:176-177 | the URL built from the year and page is downloaded and extracted, which is the visit's table |
| `Text.KeepDigits` | CarDataExplorationBook/_build/jupyter_execute/Projekt.py:232 | the digit strip leaves only digits, and they form a subsequence of the input |
| `Text.KeepDigitsConcat` | CarDataExplorationBook/_build/jupyter_execute/Projekt.py:232-235 | the digit strip works piece by piece, so every digit is kept in its original order |
| `Text.KeepDigitsFixpoint` | CarDataExplorationBook/_build/jupyter_execute/Projekt.py:232-235 | the strip leaves a value unchanged exactly when it is all digits |
| `Text.KeepDigitsIdempotent` | CarDataExplorationBook/_build/jupyter_execute/Projekt.py:232-235 | stripping twice is stripping once |
| `Text.JoinSplit` | CarDataExplorationBook/_build/jupyter_execute/Projekt.py:297 | joining the parts of `split(c)` with `c` gives the text back |
| `Text.SplitLast` | CarDataExplorationBook/_build/jupyter_execute/Projekt.py:297 | the last part of `split(c)` is the text after the last `c`, and all of it when there is no `c` |
| `Text.SplitCount` | CarDataExplorationBook/_build/jupyter_execute/Projekt.py:303 | `split(c)` has at least two parts exactly when `c` occurs |
| `Text.SplitSecondLast` | CarDataExplorationBook/_build/jupyter_execute/Projekt.py:303 | the second-to-last part lies between the last two separators, or runs from the start to the only one |
| `Text.AfterLastSpec` | CarDataExplorationBook/_build/jupyter_execute/Projekt.py:243 | what `.*p` deletion leaves of a line is the suffix after the last occurrence of p |
| `Text.BeforeFirst` | CarDataExplorationBook/_build/jupyter_execute/Projekt.py:223 | what `(p).*` deletion leaves of a line is the prefix before the first occurrence of p |
| `Text.DigitsValueOfNatToString` | CarDataExplorationBook/_build/jupyter_execute/Projekt.py:176 | reading back `str(n)` gives n |
| `Patterns.SearchChar` | CarDataExplorationBook/_build/jupyter_execute/Projekt.py:266-268 | searching for a one-character pattern is membership |
| `Patterns.SearchLiteral` | CarDataExplorationBook/_build/jupyter_execute/Projekt.py:324-328 | searching for a literal finds exactly its occurrences |
| `Patterns.SubAllChar` | CarDataExplorationBook/_build/jupyter_execute/Projekt.py:285 | replacing one character by another rewrites exactly its occurrences and keeps the length |
| `Patterns.ReplaceListWithoutMatch` | CarDataExplorationBook/_build/jupyter_execute/Projekt.py:234 | a value matching none of the listed patterns is left unchanged |
| `Patterns.ReplaceListKeepsDigits` | CarDataExplorationBook/_build/jupyter_execute/Projekt.py:252 | deleting the non-digit marks `(` and `PS)` loses no digit |
| `Cells.CleanPrice` | CarDataExplorationBook/_build/jupyter_execute/Projekt.py:223-224 | the cleaned price is all digits: for a one-line value, the digits of the text before the first `",-"` |
| `Cells.CleanPriceIdempotent` | CarDataExplorationBook/_build/jupyter_execute/Projekt.py:223-224 | cleaning a cleaned price changes nothing |
| `Cells.StripConsumptionUnits` | CarDataExplorationBook/_build/jupyter_execute/Projekt.py:234 | a consumption containing none of the three unit patterns is left as it is |
| `Cells.ConsumptionWithUnits` | CarDataExplorationBook/_build/jupyter_execute/Projekt.py:234 | a figure followed by ` l/100 km (komb.)` keeps only the figure and two spaces |
| `Cells.ConsumptionStripStable` | CarDataExplorationBook/_build/jupyter_execute/Projekt.py:234 | for the site's layout, deleting the units a second time changes nothing more |
| `Cells.ConsumptionReading` | CarDataExplorationBook/_build/jupyter_execute/Projekt.py:285 | after the unit deletion and the comma rewrite such a consumption is the figure with a decimal point |
| `Cells.ConsumptionExample` | CarDataExplorationBook/_build/jupyter_execute/Projekt.py:234 | `6,5 l/100 km (komb.)` becomes `6.5` followed by two spaces |
| `Cells.DecimalPoint` | CarDataExplorationBook/_build/jupyter_execute/Projekt.py:285 | every `,` becomes `.`, all else and the length are unchanged, and no comma remains |
| `Cells.CleanRegistration` | CarDataExplorationBook/_build/jupyter_execute/Projekt.py:243-244 | the registration is all digits: for a one-line value, the digits after the last `/` |
| `Cells.CleanRegistrationIdempotent` | CarDataExplorationBook/_build/jupyter_execute/Projekt.py:243-244 | cleaning a cleaned registration changes nothing |
| `Cells.CleanPower` | CarDataExplorationBook/_build/jupyter_execute/Projekt.py:252-253 | the power is all digits: for a one-line value, the digits after the last `kW` |
| `Cells.CleanPowerIdempotent` | CarDataExplorationBook/_build/jupyter_execute/Projekt.py:252-253 | cleaning a cleaned power changes nothing |
| `Cells.MissingIfBlank` | CarDataExplorationBook/_build/jupyter_execute/Projekt.py:269-271 | a value becomes missing exactly when it is empty; otherwise it is kept |
| `Cells.MissingIfBlankOrDash` | CarDataExplorationBook/_build/jupyter_execute/Projekt.py:268 | missing exactly when empty or containing `-` |
| `Cells.MissingIfBlankDashOrZero` | CarDataExplorationBook/_build/jupyter_execute/Projekt.py:266-267 | missing exactly when empty or containing `-` or `0` anywhere |
| `Cells.Brand` | CarDataExplorationBook/_build/jupyter_execute/Projekt.py:213 | Marke is the prefix of Titel before its first whitespace character |
| `Cells.City` | CarDataExplorationBook/_build/jupyter_execute/Projekt.py:297 | Stadt is the suffix of Standort after its last space, all of it when there is none |
| `Cells.PostalCode` | CarDataExplorationBook/_build/jupyter_execute/Projekt.py:300 | PLZ is all digits |
| `Cells.Country` | CarDataExplorationBook/_build/jupyter_execute/Projekt.py:303 | Land is missing exactly when Standort has no `-` |
| `Cells.CountryBeforeLastDash` | CarDataExplorationBook/_build/jupyter_execute/Projekt.py:303 | otherwise Land is the word (no space, no `-`) directly in front of the last `-` |
| `Cells.ContainsOccurrence` | CarDataExplorationBook/_build/jupyter_execute/Projekt.py:324-328 | an equipment keyword test holds exactly when the keyword occurs in the subtitle, case-sensitively |
| `Table.FromPageRow` | CarDataExplorationBook/_build/jupyter_execute/Projekt.py:205 | a crawled row enters `AutoDF` with every scraped text present as scraped and no derived column yet |
| `Table.ZeroElectric` | CarDataExplorationBook/_build/jupyter_execute/Projekt.py:274-275 | a row with Kraftstoff `Elektro` gets consumption and emissions 0 whatever they held; any other row is unchanged |
| `Table.Flags` | CarDataExplorationBook/_build/jupyter_execute/Projekt.py:324-341 | each flag holds exactly when its keyword occurs in Untertitel, case-sensitively (Einparkhilfe with its trailing space); Klimaanlage accepts either keyword; a missing Untertitel gives five false flags |
| `Table.Keep` | CarDataExplorationBook/_build/jupyter_execute/Projekt.py:394 | a row filter returns an order-preserving subsequence that holds exactly the input rows satisfying the condition, each kept row with all its copies (`df[mask]` does not deduplicate) |
| `Table.DropIncompleteIsKeepComplete` | CarDataExplorationBook/_build/jupyter_execute/Projekt.py:394-397 | the four filters in a row keep exactly the rows that have all four columns |
| `Table.DropIncompleteSpec` | CarDataExplorationBook/_build/jupyter_execute/Projekt.py:394-397 | the filter output is an order-preserving subsequence, never longer; a row survives exactly when it is complete, and a complete row keeps every copy it has in the input |
| `Table.KeptRow` | CarDataExplorationBook/_build/jupyter_execute/Projekt.py:394-397 | every surviving row is complete and comes from some crawled row |
| `Table.CleanedColumns` | CarDataExplorationBook/_build/jupyter_execute/Projekt.py:213-341 | each column of a cleaned row is the composition of its cells' rules applied to the scraped value, with the Elektro override last |
| `Table.BlankMeansMissing` | CarDataExplorationBook/_build/jupyter_execute/Projekt.py:269-271 | km, PS and Erstzulassung are missing exactly when their cleaned digit text is empty |
| `Table.OwnersMissingOnlyWhenBlank` | CarDataExplorationBook/_build/jupyter_execute/Projekt.py:268 | after the digit strip Fahrzeughalter has no `-`, so it is missing exactly when it has no digits |
| `Table.ElectricGetsZero` | CarDataExplorationBook/_build/jupyter_execute/Projekt.py:274-275 | an electric car ends with consumption 0 and emissions 0, never missing |
| `Table.ConsumptionOfOtherCars` | CarDataExplorationBook/_build/jupyter_execute/Projekt.py:266-285 | for other cars, consumption is missing exactly when the unit-stripped text is empty or holds `-` or `0`; otherwise it is that text with `.` for `,` |
| `Table.EmissionsOfOtherCars` | CarDataExplorationBook/_build/jupyter_execute/Projekt.py:267 | for other cars, emissions are missing exactly when they have no digits or contain the digit 0 |
| `Table.EmissionWithZeroDigitIsMissing` | CarDataExplorationBook/_build/jupyter_execute/Projekt.py:267 | an emission of `120 g/km` on a non-electric car is marked missing |
| `Table.PriceExample` | CarDataExplorationBook/_build/jupyter_execute/Projekt.py:223-224 | `€ 12.345,- 189,- mtl.` cleans to `12345` |
| `Table.BlankConsumptionDropped` | CarDataExplorationBook/_build/jupyter_execute/Projekt.py:266-397 | a non-electric car with blank consumption is dropped, never zero-filled |
| `Table.EquipmentFromSubtitle` | CarDataExplorationBook/_build/jupyter_execute/Projekt.py:324-341 | the flags of every cleaned row are the keyword tests on its subtitle |
| `Table.LocationExample` | CarDataExplorationBook/_build/jupyter_execute/Projekt.py:297-303 | `DE-70173 Stuttgart` gives Stadt `Stuttgart`, PLZ `70173` and Land `DE` |
| `Table.IntValue` | CarDataExplorationBook/_build/jupyter_execute/Projekt.py:406-409 | integer conversion succeeds exactly on a non-empty digit string whose value fits int64 (at most 2^63 - 1); the result is then within that bound |
| `Table.SurvivorsAreComplete` | CarDataExplorationBook/_build/jupyter_execute/Projekt.py:394-409 | every surviving row has all four columns; km, PS and emissions are non-empty digit texts, so each converts exactly when its value fits int64, and consumption has no comma left |
| `Table.PriceConversion` | CarDataExplorationBook/_build/jupyter_execute/Projekt.py:406 | Preis is never filtered and is all digits, so its conversion succeeds on the surviving rows exactly when none of them has an empty cleaned price or one beyond int64 |
| `Table.IntValueOfNatToString` | CarDataExplorationBook/_build/jupyter_execute/Projekt.py:406-409 | converting the decimal text of any number up to 2^63 - 1 gives that number back |
| `Table.ShortDigitsConvert` | CarDataExplorationBook/_build/jupyter_execute/Projekt.py:406-409 | any non-empty digit text of at most 18 digits converts |
| `Table.CarTable.constructor` | CarDataExplorationBook/_build/jupyter_execute/Projekt.py:205 | `AutoDF` starts as the crawled rows |
| `Table.CarTable.AddBrandColumn` | CarDataExplorationBook/_build/jupyter_execute/Projekt.py:213 | every row gains Marke from its Titel |
| `Table.CarTable.CleanTextColumns` | CarDataExplorationBook/_build/jupyter_execute/Projekt.py:223-253 | the text rewrites of Preis, km, Fahrzeughalter, Verbrauch, Emissionen, Erstzulassung and PS, row by row |
| `Table.CarTable.MarkMissingValues` | CarDataExplorationBook/_build/jupyter_execute/Projekt.py:266-271 | the missing markers of each column |
| `Table.CarTable.ZeroElectricCars` | CarDataExplorationBook/_build/jupyter_execute/Projekt.py:274-275 | the Elektro override on every row |
| `Table.CarTable.UseDecimalPoint` | CarDataExplorationBook/_build/jupyter_execute/Projekt.py:285 | the comma rewrite of Verbrauch |
| `Table.CarTable.AddLocationColumns` | CarDataExplorationBook/_build/jupyter_execute/Projekt.py:297-303 | Stadt, PLZ and Land from Standort |
| `Table.CarTable.AddEquipmentColumns` | CarDataExplorationBook/_build/jupyter_execute/Projekt.py:324-341 | the five equipment flags |
| `Table.CarTable.DropIncompleteRows` | CarDataExplorationBook/_build/jupyter_execute/Projekt.py:394-397 | the four row filters in sequence |
| `Table.CarTable.Clean` | CarDataExplorationBook/_build/jupyter_execute/Projekt.py:213-397 | the cells in their order turn the rows into the filtered, normalised rows |
| `Table.CleanCrawl` | CarDataExplorationBook/_build/jupyter_execute/Projekt.py:205-397 | the cleaning section applied to the crawled rows gives the pipeline's specified result |

## Left out

- HTTP fetching and HTML parsing (lines 99-126): a page is given already parsed. The class-prefix matching of elements is not modelled. The download is the function parameter `fetch` of `Crawl.CrawlAll`.
- A fetch or parse failure of `requests`/BeautifulSoup is not modelled. Only the two exceptions of `extractPageCarDF` itself are: an article without a wrapper div, and a wrapper without either price element.
- The Excel export (line 197) and the `AutoDF` display cells are I/O.
- `Leasing` is a boolean throughout. The 0.0/1.0 float encoding that pandas produces, and its conversion back at lines 350-351, are not modelled.
- The Elektro override writes the number 0. The model writes the text `"0"`, which the later comma rewrite and the numeric conversions treat the same way.
- The drop of the Standort column (line 313) is not modelled: the field stays in the row.
- The float conversions of Erstzulassung and Verbrauch (lines 410-411) are floating point. The model keeps consumption as cleaned decimal text. Only the integer conversion of lines 406-409 is stated, as `Table.IntValue`.
- The category conversions (lines 419-423), descriptive statistics, plots, the regression, geocoding and the map (lines 432-737) are library or network calls.
- Regular expressions in general: only the notebook's patterns are modelled. Their `.` and `.*` do not cross a line break; a value's lines are rewritten one by one.
- `Extraction.DetailRows`: its own contract states only the length bound. Order and content are stated by `Extraction.DetailRowsConcat`, `Extraction.DetailRowsAllLong` and `Extraction.DetailRowsFromTables`.
- `Cells.CleanPrice`, `Cells.CleanRegistration`, `Cells.CleanPower`: the characterisation by first/last occurrence is stated for one-line values. A value with line breaks is rewritten line by line, and for it only "all digits" is stated.
- `Cells.StripConsumptionUnits`: its own contract covers only values without a unit. Values with units are covered by `Cells.ConsumptionWithUnits` for the layout the site shows. The deletion is not idempotent in general: a text such as `l/1l/100 km00 km` leaves `l/100 km` after one pass, which a second pass deletes. Stability under a second pass is stated only for the site's layout (`Cells.ConsumptionStripStable`).
