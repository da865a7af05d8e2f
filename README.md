# weather_analyse, modelled in Dafny

weather_analyse scrapes the daily weather history of a Chinese city from
tianqihoubao.com and stores it in a workbook `data/<name>.xlsx`. Each day
becomes one row of nine text columns: year, month, day, day and night
weather, high and low temperature, and day and night wind. The program then
draws three charts from the saved sheet: monthly mean temperatures, wind
force levels per month and weather conditions per month. It also fits a
regression that predicts the mean monthly high of 2025 and saves that chart
under a name derived from its title.

This project models the parts that decide what is stored and what is
counted:

- `Fetch` models the request check, the page address and row extraction. A
  row is kept or skipped depending on its date cell, and each cell is split
  on '/', stripped and has its trailing '℃' removed. `Fetch` also models
  appending to a workbook that is opened or created, saving it, and the
  month-by-month year fetch.
- `DateCell` models `re.match('(.*)年(.*)月(.*)日', …)` exactly, including
  its greedy backtracking.
- `Sheet` holds the workbook and the data directory as classes with mutable
  state. `Frame` models reading a saved sheet back as records: empty cells
  are missing values, with `dropna` and numeric coercion.
- `Analyse` models the aggregates behind the three charts: wind force
  extraction, pooling of day and night, occurrence counting, division by
  the number of distinct years, and the two legend orders.
- `Train` models the month-list validation of `predict`, the choice to
  compare with recorded data, the title and chart file name, and the rows
  the regression is trained and compared on.
- `Pipeline` connects the stages. What the fetcher writes is what the
  analysis reads: the file a year fetch leaves reads back as its old records
  followed by the year's records (`Fetch.YearRecords`), each of the
  requested year and an accepted month, in month order. It also holds the
  one defect found in the source: see Findings.
- `Common` and `Sorting` hold the string helpers (Python's `strip`,
  `split`, `lstrip`, `int`, `str`) and the stable sort by key.

The network, the HTML parser and the clock are inputs. Today's date is a
`Today` value. A month page is a `Response` holding the status code and the
table rows as cell texts. pandas' number parser is a function parameter
`num`.

## Model

| member | source | states |
|---|---|---|
| Fetch.CheckRequest | fetch.py:26-32 | The year is rejected exactly when it is outside 2011 to the current year. A request passes exactly when the year is in range, the month is in 1..12, and the month is not after the current month of the current year. |
| Fetch.PadMonth | fetch.py:34-35 | A one-digit month gets a leading '0'. The result names the same number, has at least two digits, and is either the month itself or "0" + month. |
| Fetch.Url | fetch.py:71 | The page address starts with the site's base address and ends in ".html". |
| Fetch.UrlInjective | fetch.py:71 | Two months written with the same number of digits, for one city and year, have different addresses. |
| Fetch.SplitPair | fetch.py:96-97 | When `split('/')` gives two parts, the cell is exactly those parts joined by its only '/'. |
| Fetch.SplitPairCount | fetch.py:96-97 | The split gives two parts exactly when the cell holds exactly one '/'. |
| Fetch.SplitPairOf | fetch.py:96-99 | Two '/'-free sides joined by '/' split back into those sides. |
| Fetch.TextPair | fetch.py:96-121 | Each side of a weather or wind cell is empty or starts and ends with a non-space, and neither side contains '/'. |
| Fetch.TemperatureSide | fetch.py:107-108 | A temperature side is empty or starts with a non-space and does not end in '℃'. It has no '/' when the side had none. |
| Fetch.TemperaturePair | fetch.py:105-112 | Each side of a temperature cell is empty or starts with a non-space and does not end in '℃', and neither side contains '/'. |
| Fetch.CellPairsOf | fetch.py:96-121 | A cell with one '/' yields its two sides stripped. A temperature side also loses its trailing '℃' signs and never ends in one. |
| Fetch.CellPairsMalformed | fetch.py:96-121 | A cell without exactly one '/' yields two empty strings, for weather, temperature and wind alike. |
| Fetch.ParseRow | fetch.py:88-123 | A row yields a record exactly when its date cell matches the date pattern. The record's year is the requested year, and its month is the padded month without leading zeros. Any row with a date cell can be read; a row whose date matches must have the four cells the code indexes. |
| Fetch.CategoriesIndependent | fetch.py:96-123 | Replacing the weather, temperature or wind cell changes only that category's two fields. The row is still kept. |
| Fetch.RowRecord | fetch.py:85-126 | A node that is not a row element yields nothing. Any record carries the requested year and month. |
| Fetch.Records | fetch.py:82-83 | There is one result per table node, position by position. |
| Fetch.Emitted | fetch.py:123 | Every appended row has the nine header columns, and there is at most one row per record. |
| Fetch.EmittedAppend | fetch.py:82-123 | The rows for two runs of records are the rows for the first followed by the rows for the second. |
| Fetch.EmittedCount | fetch.py:89-123 | The number of rows appended is the number of nodes that yield a record. |
| Fetch.EmittedColumns | fetch.py:123 | Every appended row carries its record's year and month in the first two columns. |
| Fetch.Extracted | fetch.py:82-123 | A table yields at most one row per table row. |
| Fetch.ExtractedColumns | fetch.py:123 | Every row appended for a table has nine columns, the requested year, and the requested month without its leading zero. |
| Fetch.ExtractedSingle | fetch.py:85-126 | One node contributes the row of its record if it has one, and otherwise nothing. |
| Fetch.ExtractedAppend | fetch.py:82-126 | Rows are processed one at a time and in order, so extraction distributes over concatenation. |
| Fetch.SkippedRow | fetch.py:85-126 | A row whose date does not match adds nothing. A non-row node also adds nothing. The rows around it are extracted as if it were absent. |
| Fetch.ShortRowSkipped | fetch.py:86-91 | A one-cell row without a date, such as a "no data" row, is read without failing and is skipped. |
| Fetch.PageRows | fetch.py:74-126 | A page yields rows only when its status is 200 and the table was found, and then fewer rows than the table has, because the head row is skipped. Every row has the nine columns, the requested year and the month without its leading zero. |
| Fetch.MonthRows | fetch.py:26-134 | A month request yields rows only when it passes validation and the table is reached. Every row has the nine columns, the requested year and the month's canonical numeral. |
| Fetch.Present | fetch.py:85-123 | The records kept are among the records of the table rows, and there are at most as many of them as rows. |
| Fetch.EmittedPresent | fetch.py:123 | The rows appended are exactly the rows of the records that exist, in table order. |
| Fetch.PageRecords | fetch.py:82-123 | Every record of a page carries the requested year and the month without its leading zero. |
| Fetch.PageRowsRecords | fetch.py:82-123 | A page's rows are the rows of its records. |
| Fetch.MonthRecords | fetch.py:26-123 | A month request yields records only when it passes validation. Each one carries the requested year and the month's canonical numeral. |
| Fetch.MonthSheetRead | fetch.py:123-129 | A month's rows are the rows of its records. Appended to a readable sheet, they read back as those records after the records already there. |
| Fetch.ProcessRow | fetch.py:83-126 | The workbook's rows become the old rows followed by this node's row, if it yields one. |
| Fetch.ProcessTable | fetch.py:80-126 | The first table row (the head) is skipped. The rows of the remaining nodes are appended in order. |
| Fetch.ProcessPage | fetch.py:74-134 | Rows are processed exactly when the status is 200 and the table exists. Otherwise nothing is appended. |
| Fetch.FetchMonth | fetch.py:26-134 | The page is requested at `Url(city, year, padded month)` exactly when validation passes. For an in-memory workbook, the month's rows are appended and no file changes. For a file name: a rejected request changes nothing; an accepted one loads the file or creates it with the header and saves it; the month's rows are appended, and the file is saved again when the table was reached. |
| Fetch.YearUrlsInOrder | fetch.py:164-165 | A year fetch requests the first k accepted months in ascending order, one address per month. k is 12 for a past year, today's month for the current year, and 0 outside the range. |
| Fetch.MonthAccepted | fetch.py:26-32 | Month n of a year fetch passes validation exactly when n is at most the number of accepted months. |
| Fetch.AcceptedMonths | fetch.py:26-32 | Months 1..k pass validation and the months after k do not. |
| Fetch.YearUrlsCount | fetch.py:164-165 | A year fetch makes as many requests as there are accepted months among those tried. |
| Fetch.YearUrlsAt | fetch.py:164-165 | The j-th request of a year fetch is for month j + 1. |
| Fetch.YearRowsRejected | fetch.py:26-28 | Outside the accepted years, a year fetch adds no rows. |
| Fetch.MonthColumn | fetch.py:34-35 | The month column is the canonical numeral of the requested month, whether it was given padded or not. |
| Fetch.FetchMonths | fetch.py:164-165 | Months "1" to "12" are fetched in order into one workbook. The workbook ends with all accepted months' rows in order, and the data directory is not touched. |
| Fetch.FetchYear | fetch.py:147-168 | The file is opened or created with the header, every month's rows are appended in order, and the file is saved once more. The file ends as its old content (or the header) followed by the year's rows. Read back, it gives the records it held followed by `YearRecords`; a new file gives exactly `YearRecords`. |
| Fetch.YearRows | fetch.py:164-165 | Every row a year fetch appends has the nine columns and the requested year. |
| Fetch.YearUrls | fetch.py:164-165 | A year fetch makes at most one request per month tried. |
| Fetch.YearRecords | fetch.py:164-165 | Every record of a year fetch has the requested year and an accepted month between 1 and 12, written as its canonical numeral. The records come in ascending month order. |
| Fetch.YearRowsRecords | fetch.py:164-165 | The rows a year fetch appends are the rows of its records. |
| Fetch.YearSheetRead | fetch.py:164-167 | A readable sheet that a year fetch appends to reads back as its old records followed by the year's records. |
| Fetch.YearFileRead | fetch.py:147-167 | The file a year fetch leaves reads back as the records it held, none for a new file, followed by the year's records. |
| Fetch.TextCellOf | fetch.py:114-117 | A weather or wind cell gives back both of its unpadded sides, whatever whitespace surrounds them. |
| Fetch.TemperatureCellOf | fetch.py:105-108 | A temperature cell "x℃ / y℃", with any padding, gives back x and y. |
| Fetch.DegreeSide | fetch.py:107 | One temperature side, padded and ending in '℃', strips to its bare value. |
| Fetch.ParseRowExample | fetch.py:88-123 | A typical row gives the record "2023", "3", "5", "晴", "多云", "10", "2", "北风 3级", "南风 2级". |
| Fetch.ParseRowNoDate | fetch.py:88-91 | A date written as "2023-03-05" is skipped. |
| Fetch.DateCellNoMatch | fetch.py:88-91 | A date cell without 日 never matches. |
| DateCell.MatchDate | fetch.py:88 | Whatever groups are returned are a match at the start of the cell: they hold no newline and, with 年, 月 and 日, spell a prefix of the cell. |
| DateCell.MatchLineSpells | fetch.py:88 | Whatever groups are found in a line spell, with 年, 月 and 日, a prefix of the line. |
| DateCell.MatchDateGreedy | fetch.py:88 | Every assignment of the groups that fits comes no earlier in backtracking order than the one returned. So there is a result exactly when the pattern can match, and it is the one Python's engine picks. |
| DateCell.MatchDateSpelled | fetch.py:88-93 | Groups free of 年, 月, 日 and newline are recovered exactly from the date they spell. |
| DateCell.MatchDateAt | fetch.py:88 | The groups end at the last 日 of the line, the last 月 before it, and the last 年 before that. |
| DateCell.FirstLineSpec | fetch.py:88 | Only the text before the first newline can take part in a match. |
| DateCell.LastIndexOfSpec | fetch.py:88 | The search finds a character exactly when it occurs, and then finds its last occurrence. |
| Sheet.Workbook.Append | fetch.py:123 | The sheet's rows become the old rows followed by the new row. |
| Sheet.DataDir.Save | fetch.py:129 | The file holds exactly the workbook's rows, and one more save has happened. |
| Sheet.DataDir.Load | fetch.py:53 | A fresh workbook holds the saved rows. |
| Sheet.DataDir.OpenOrCreate | fetch.py:37-59 | An existing file is loaded with its rows. A missing file is created holding only the nine-column header and is saved at once. |
| Sheet.Fields | fetch.py:123 | A record's row has the nine header columns. |
| Sheet.RowsOf | fetch.py:123 | The rows written for some records are one row per record, in order, each holding that record's nine fields. |
| Sheet.RowsOfAppend | fetch.py:123 | Writing two runs of records writes the rows of the first, then the rows of the second. |
| Frame.ReadFrame | analyse.py:28 | A sheet with n rows after its header reads as n records. Each record's fields are its row's cells in header order, and a cell past a short row's end is missing. `Frame.ReadWritten` and `Frame.ReadAppended` show that what the fetcher writes reads back unchanged. |
| Frame.ReadWritten | analyse.py:28 | A sheet of the header and some records' rows reads back as exactly those records, in order. |
| Frame.ReadAppended | analyse.py:28 | Rows appended to a readable sheet read back as exactly the records they were written from, after the records already there. |
| Frame.DropIncomplete | train.py:31 | Rows are only dropped, every kept row has the required values, and the kept rows are a sub-multiset of the table. |
| Frame.DropIncompleteMembers | analyse.py:33 | A row is kept exactly when it is in the table and complete. |
| Frame.DropIncompleteSingle | train.py:31 | One row is kept exactly when it is complete. |
| Frame.DropIncompleteAppend | train.py:31 | Dropping distributes over concatenation, so the kept rows keep their order and their repeats. |
| Frame.DropIncompleteComplete | train.py:31 | A table whose rows are all complete is returned unchanged. |
| Frame.Numeric | analyse.py:31-32 | Coercing a missing cell stays missing. |
| Analyse.Value | analyse.py:157-162 | A cell has a value exactly when it is not empty, and then the value is the cell's text. |
| Analyse.WindForce | analyse.py:81-84 | There is a level exactly when the text contains a space, and the level contains no space. |
| Analyse.WindForceLastWord | analyse.py:81-84 | There is a level exactly when the text contains a space. The level is the space-free tail after the last space. |
| Analyse.WindForceOf | analyse.py:81-84 | The level of `prefix + " " + w` is w when w has no space. |
| Analyse.WindForceNonEmpty | analyse.py:81-84 | A text that does not end in whitespace has a non-empty level, if it has one. |
| Analyse.WindColumnAsWritten | analyse.py:86-87 | As written, applying the extraction to a column raises exactly when some cell is missing. Otherwise the column is the level of every cell. |
| Analyse.LevelOf | analyse.py:81-87 | Corrected reading: a missing cell has no level, and any other cell has its extracted level. |
| Analyse.WindColumn | analyse.py:86-87 | The corrected column has one level per cell. |
| Analyse.WindColumnAgrees | analyse.py:86-87 | Where the code as written does not raise, the corrected column is the same. |
| Analyse.Observed | analyse.py:94-96 | Concatenating and dropping missing labels never adds entries, and every entry kept has a month. |
| Analyse.ObservedMembers | analyse.py:94-96 | A (month, label) pair is counted exactly when its month is present and some entry carries both. |
| Analyse.ObservedAppend | analyse.py:94 | Pooling the day and night columns pools each one and concatenates the results. |
| Analyse.ObservedLength | analyse.py:95 | Nothing is dropped except the entries without a label or a month. |
| Analyse.PooledOccurrenceOf | analyse.py:90-96 | A pair occurs exactly when its month is present and some record has that month and the label by day or by night. |
| Analyse.WeatherOccurrences | analyse.py:157-163 | There are at most two weather occurrences per record, and each has a month. |
| Analyse.WindOccurrences | analyse.py:86-96 | There are at most two wind occurrences per record, and each has a month. |
| Analyse.WeatherOccurrenceOf | analyse.py:157-163 | A (month, weather) pair occurs exactly when some record of that month shows the weather by day or by night, and both are non-empty. |
| Analyse.WindOccurrenceOf | analyse.py:86-96 | A (month, level) pair occurs exactly when some record of that month has the level in its day or night wind cell. |
| Analyse.CountOccurrences | analyse.py:96 | The count table has a row for exactly the pairs that occur, each holding that pair's number of occurrences. |
| Analyse.CountTableSum | analyse.py:96 | The counts of the table add up to the number of pooled occurrences. |
| Analyse.CountsSum | analyse.py:96 | The multiplicities of the distinct occurrences add up to the number of occurrences. |
| Analyse.Years | analyse.py:88 | The year column holds exactly the non-empty years of the records. |
| Analyse.YearsCount | analyse.py:88 | The number of distinct years is at most the number of records. |
| Analyse.PerYear | analyse.py:97 | The annual mean multiplied by the number of years gives back the count. |
| Analyse.OneYear | analyse.py:88-97 | With one year present, the number of years is 1 and the annual mean is the raw count. |
| Analyse.WindSortKey | analyse.py:99-108 | The key is between 0 and 99. |
| Analyse.WindSortKeyMeaning | analyse.py:99-108 | The key's tens digit is the leading digit. A level that does not start with a digit has key 99. |
| Analyse.WindSortKeyByForce | analyse.py:99-108 | A smaller leading digit always sorts first. |
| Analyse.WindSortKeyExamples | analyse.py:99-108 | "3级" has key 30, "3-4级" 34, "4级" 40 and "无持续风向" 99. "10级" has key 10, the same as "1级". |
| Analyse.SortedWindLevels | analyse.py:110-111 | The legend is a permutation of the distinct levels, sorted by key. Levels with equal keys keep their order of first appearance. |
| Analyse.SortedWindLevelsDistinct | analyse.py:110-111 | Each level appears in the legend exactly once. |
| Analyse.Keep | analyse.py:175 | Every kept label is in the given list. |
| Analyse.Drop | analyse.py:176 | No remaining label is in the given list. |
| Analyse.KeepMembers | analyse.py:175 | A label is kept exactly when it is in both lists. |
| Analyse.DropMembers | analyse.py:176 | A label remains exactly when it is in the list and not in the known labels. |
| Analyse.KeepDropSplit | analyse.py:175-176 | The kept labels and the remaining labels together are the original labels. |
| Analyse.WeatherOrder | analyse.py:167-177 | The legend holds exactly the labels present, no more and no fewer. |
| Analyse.WeatherOrderParts | analyse.py:167-177 | The known labels come first and all others after them, and the others are in code-point order. |
| Analyse.WeatherOrderOthersSorted | analyse.py:176-177 | Any two of the other labels, not only neighbours, are in code-point order. |
| Analyse.WeatherOrderPermutation | analyse.py:173-177 | The legend lists each label present exactly once. |
| Analyse.WeatherOrderKnownInOrder | analyse.py:167-175 | The known labels keep the fixed order of the weather list. |
| Analyse.KeepInOrder | analyse.py:175 | Filtering a duplicate-free list keeps its order. |
| Analyse.CanonicalDistinct | analyse.py:167-172 | The 21 known weather labels are pairwise distinct. |
| Analyse.TemperatureMonthsIff | analyse.py:31-35 | A month is in the temperature table exactly when one of its days has both a numeric high and a numeric low. |
| Analyse.TemperatureMonths | analyse.py:31-35 | No month in the temperature table is missing. |
| Common.NatToString | fetch.py:165 | `str(n)` is a numeral without a leading zero (except "0"), and `int()` reads it back as n. |
| Common.ParseNatLeadingZero | fetch.py:34-35 | A leading '0' does not change the value `int()` reads. |
| Common.NatToStringOfNumeral | fetch.py:123 | A numeral without a leading zero is the `str` of its value. |
| Common.StripLeadingZeros | fetch.py:123 | `lstrip('0')` of a numeral keeps its value, and leaves the canonical numeral when the value is positive. |
| Common.TrimStart | fetch.py:93 | `lstrip` removes a prefix made only of the given characters, and what is left does not start with one. |
| Common.TrimEnd | fetch.py:107 | `rstrip` removes a suffix made only of the given characters, and what is left does not end with one. |
| Common.Strip | fetch.py:98 | What `strip()` leaves is empty or starts and ends with a non-space. |
| Common.StripOf | fetch.py:98 | A text padded with whitespace on both sides strips back to its core. |
| Common.StripWithin | fetch.py:98 | Stripping never adds a character. |
| Common.Split | fetch.py:96 | `split` gives at least one part, no part holds the separator, and the parts joined by the separator give back the text. |
| Common.SplitCount | fetch.py:96-97 | `split` gives one more part than the text has separators. |
| Common.SplitJoin | fetch.py:96 | Splitting separator-free parts joined by the separator gives back the parts. |
| Common.Distinct | analyse.py:88 | The distinct values are exactly the values present, each once, and there are no more of them than values. |
| Sorting.SortByKey | analyse.py:111 | The result is sorted by key and is a permutation of the input. |
| Sorting.SortByKeyStable | analyse.py:111 | Elements with equal keys keep their relative order, as in Python's stable `sorted`. |
| Sorting.SortLex | analyse.py:177 | The result is in code-point order and is a permutation of the input. |
| Sorting.SortedLexPairwise | analyse.py:177 | In a sorted list, every label is no greater than every later label. |
| Train.ValidMonthsIff | train.py:54-56 | A month list is accepted exactly when it is non-empty, non-decreasing and within 1..12. Gaps and repeats are accepted. |
| Train.ValidMonthsOrdered | train.py:54-56 | An accepted list is non-decreasing and every month in it lies in 1..12. |
| Train.TwoMonthsAccepted | train.py:54 | Any two months in order pass the check. |
| Train.ValidMonthsAccepted | train.py:54 | [1, 3] and [5, 5] are accepted. |
| Train.ValidMonthsRejected | train.py:54-56 | [3, 1] and [0, 1] are rejected. |
| Train.Compare | train.py:58-70 | Real values are compared exactly when a data set was named and its file exists. |
| Train.Caption | train.py:106-113 | The caption after the months starts with 月. |
| Train.CaptionShape | train.py:103-113 | The caption after the months starts with 月 and tells the compared chart from the prediction-only one. |
| Train.TitleTail | train.py:105-113 | After the first month, one month goes straight to 月 and several months go to '-'. |
| Train.Title | train.py:102-114 | The title starts with "2025年" followed by the first month's digits. |
| Train.TitleIdentifies | train.py:102-114 | Equal titles mean the same first month and the same last month. They also mean both requests were for one month or both for several, and both did or did not compare. |
| Train.TailIdentifies | train.py:105-113 | The text after the first month tells one month from several and whether values were compared. For several months it gives the last one. |
| Train.NumeralPrefix | train.py:106-113 | A month number followed by a non-digit is read back unambiguously. |
| Train.ChartPath | train.py:121 | The chart file is "results/", the title, then ".png", so the title can be read back from the path. |
| Train.ChartPathInjective | train.py:121 | Different titles are saved to different files. |
| Train.ChartPathIdentifies | train.py:102-121 | Two predictions overwrite the same chart file only when their titles agree on all of the above. |
| Train.Predict | train.py:54-114 | `predict` stops with nothing exactly when the month list is invalid. Otherwise it settles whether to compare and the title. |
| Train.TrainRows | train.py:23-31 | There is no model exactly when the data file does not exist. |
| Train.TrainRowsFromFile | train.py:27-31 | A row is trained on exactly when it is in the file and has a year, a month and a numeric high. |
| Train.CompareRows | train.py:81-86 | No row is compared when no comparison is made. |
| Train.CompareRowsFromFile | train.py:84-86 | A row is compared exactly when it is in the named file and has a month and a numeric high. |
| Pipeline.WindSideLevels | fetch.py:114-117 | Both sides of a fetched wind cell have a non-empty level, if they have one. |
| Pipeline.FetchedLevelsNonEmpty | fetch.py:114-123 | The wind levels of a fetched record are never empty, so the sort key's `level_string[0]` exists. |
| Pipeline.SheetOf | fetch.py:49 | The sheet of some records is readable and has one row per record after the header. |
| Pipeline.FreshYearSheet | fetch.py:147-167 | The new file a year fetch creates is exactly the sheet of the year's records, so the wind and temperature lemmas about `SheetOf` apply to it. |
| Pipeline.MalformedWindCellCrashes | analyse.py:81-87 | A kept row whose wind cell does not hold exactly one '/' has empty wind fields. Saved and read back, the wind extraction as written raises on that sheet, while the corrected column reads the cell as having no level. |
| Pipeline.MalformedWindExample | fetch.py:114-121 | The row with the wind cell "北风 3级" is kept, and the wind chart as written raises on it. |
| Pipeline.CorrectedWindLevels | analyse.py:81-111 | With the corrected reading, every counted wind level of fetched records is non-empty, whatever cells were malformed. |

## Left out

- The HTTP request, BeautifulSoup's HTML parsing and `.text` extraction are left out. The page is an input holding the status code and the cell texts of each table row.
- Logging, plotting, `show_graph`, `plt.savefig` and `os.makedirs` are left out; only the chart file name is modelled.
- The regression (`PolynomialFeatures`, `LinearRegression`) and the means of `groupby(...).mean()` are left out: they are floating point. The rows they are computed from are modelled.
- The clock (`datetime.now()`) is the `Today` parameter.
- The `sheet == None` error returns (fetch.py:46-48, 56-58, 64-66, 153-155) are left out. The model's workbook always has an active sheet.
- The chart functions' early return when the data file is missing (analyse.py:25-27, 75-77, 151-153) is left out. The chart model starts from the records of an existing file.
- `Fetch.FetchMonth`, `Fetch.ParseRow`: cases where the source raises are preconditions, not modelled errors. These are a row with no cells, a row whose date matches but which has fewer than four cells (`WellFormedRow`), and a year or month that `int()` cannot parse (`IsNumeral`). A short row whose date does not match is read and skipped, as in the source (`Fetch.ShortRowSkipped`). Leading signs and surrounding whitespace, which `int()` accepts, are not modelled.
- `Fetch.FetchYear`: a request that raises (`requests.get` at fetch.py:72 on a connection error or a timeout) is not modelled; every page is an input `Response`. In the source the exception leaves `fetch_weather_data_year` before the final save at fetch.py:167, so the months already added to the workbook are lost and only what the file held before (or the header written at fetch.py:157) remains. The model always reaches that save.
- `Common.IsAsciiDigit`: Python's `isdigit` also accepts other Unicode digits. The model accepts only '0'..'9', in the wind sort key and in the month and year strings.
- `Analyse.WindSortKey` takes a non-empty level (the `Level` type). The source raises on an empty string. `Pipeline.FetchedLevelsNonEmpty` shows fetched data never yields one.
- `Analyse.PerYear` requires at least one year. With no year present pandas divides by zero and the chart is empty.
- `Analyse.SortedWindLevels`, `Analyse.WeatherOrder`: the input is the distinct labels in first-appearance order. pandas' `unique()` on the grouped table yields them in group order instead, so the order among levels with equal keys may differ.
- pandas' number parser (`pd.to_numeric`) is the parameter `num`. A cell it cannot parse becomes `None`.
- The predictor's docstring asks for a continuous run of months. The code does not check this, and the model follows the code: `Train.ValidMonthsIff` shows gaps are accepted.
- `Frame.ReadFrame` requires a sheet that starts with the fetcher's header (`Readable`). A sheet without those columns makes pandas raise `KeyError`.
- main.py and test.py are left out: they only call the functions modelled here.

## Findings

| source | as written | input that shows it | evidently intended | confidence | as-written member | corrected member |
|---|---|---|---|---|---|---|
| analyse.py:81-87 | The fetcher (fetch.py:114-121) keeps a wind cell without exactly one '/' with two empty wind fields. openpyxl stores them as no value, and pandas reads them back as NaN. `extract_wind_force` then evaluates `' ' in text` on a float, which raises `TypeError`, so the wind chart fails for the whole sheet. | The row `["2023年3月5日", " 晴 / 多云 ", "10℃ / 2℃", "北风 3级"]` (one wind for the whole day) | A missing wind cell has no level and is dropped like a cell without a space. | not executed | Pipeline.MalformedWindCellCrashes | Pipeline.CorrectedWindLevels |
