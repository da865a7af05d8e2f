/** Fetching one month, and one year, of daily weather for a city.

    The network, the HTML parser and the clock are replaced by inputs: the
    current date is a `Today` value, and what the site answers for a month's
    page is a `Response` holding the status code and, when a weather table
    was found, its rows in document order. Each row is either the cell texts
    of a table-row element or `None` for a node that is not one. */
module Fetch {
  import opened Common
  import opened DateCell
  import opened Sheet
  import opened Frame

  const UrlBase := "https://www.tianqihoubao.com/lishi/"

  datatype Today = Today(year: int, month: int)

  datatype Rejection = YearOutOfRange | MonthOutOfRange

  /** The site's answer for one page: status code and the `weather-table`
      element's rows, `None` when no such table exists. */
  datatype Response = Response(status: int, table: Option<seq<Option<seq<string>>>>)

  // ---------------------------------------------------------------------
  // Request validation and the page address

  /** Range check of the requested year and month against today's date:
      the year is checked first, then the month. */
  function CheckRequest(year: int, month: int, today: Today): (r: Option<Rejection>)
    ensures r == Some(YearOutOfRange) <==> year < 2011 || year > today.year
    ensures r == None <==>
      && 2011 <= year <= today.year
      && 1 <= month <= 12
      && !(year == today.year && month > today.month)
  {
    if year < 2011 || year > today.year then Some(YearOutOfRange)
    else if month < 1 || month > 12 || (year == today.year && month > today.month) then Some(MonthOutOfRange)
    else None
  }

  /** A request with these year and month strings passes validation. */
  predicate Accepted(year: string, month: string, today: Today)
    requires IsNumeral(year) && IsNumeral(month)
  {
    CheckRequest(ParseNat(year), ParseNat(month), today).None?
  }

  /** A one-character month gets a leading '0'; longer ones are kept. The
      padded month names the same number and has at least two digits. */
  function PadMonth(month: string): (r: string)
    requires IsNumeral(month)
    ensures IsNumeral(r) && |r| >= 2
    ensures ParseNat(r) == ParseNat(month)
    ensures r == month || r == "0" + month
  {
    if |month| == 1 then
      ParseNatLeadingZero(month);
      "0" + month
    else month
  }

  /** The address of a month's page on the site. */
  function Url(city: string, year: string, month2: string): (u: string)
    ensures |u| >= |UrlBase| + 5 && u[..|UrlBase|] == UrlBase && u[|u| - 5..] == ".html"
  {
    UrlBase + city + "/month/" + year + month2 + ".html"
  }

  /** Different months of the same width have different addresses. */
  lemma UrlInjective(city: string, year: string, a: string, b: string)
    requires |a| == |b| && Url(city, year, a) == Url(city, year, b)
    ensures a == b
  {
    var pre := UrlBase + city + "/month/" + year;
    assert Url(city, year, a) == pre + a + ".html";
    assert Url(city, year, b) == pre + b + ".html";
    assert a == Url(city, year, a)[|pre|..|pre| + |a|];
    assert b == Url(city, year, b)[|pre|..|pre| + |b|];
  }

  // ---------------------------------------------------------------------
  // One table row

  /** A row the extraction can read without failing on a missing cell: a
      date cell, and the three other cells whenever the date matches. */
  predicate WellFormedRow(cells: seq<string>)
  {
    |cells| >= 1 && (MatchDate(cells[0]).Some? ==> |cells| >= 4)
  }

  predicate WellFormedTable(rows: seq<Option<seq<string>>>)
  {
    rows != [] ==> WellFormedRows(rows[1..])
  }

  predicate WellFormedPage(page: Response)
  {
    page.table.Some? ==> WellFormedTable(page.table.value)
  }

  /** `cell.split('/')` when it gives exactly two parts, which are then
      what lies on each side of the cell's only '/'. */
  function SplitPair(cell: string): (r: Option<(string, string)>)
    ensures r.Some? ==> cell == r.value.0 + "/" + r.value.1 && '/' !in r.value.0 && '/' !in r.value.1
  {
    var parts := Split(cell, '/');
    if |parts| == 2 then
      assert Join(parts[1..], '/') == parts[1];
      Some((parts[0], parts[1]))
    else None
  }

  /** The split gives two parts exactly when the cell holds one '/'. */
  lemma SplitPairCount(cell: string)
    ensures SplitPair(cell).Some? <==> multiset(cell)['/'] == 1
  {
    SplitCount(cell, '/');
  }

  /** A cell made of two '/'-free sides joined by one '/' splits into them. */
  lemma SplitPairOf(a: string, b: string)
    requires '/' !in a && '/' !in b
    ensures SplitPair(a + "/" + b) == Some((a, b))
  {
    var parts := [a, b];
    assert Join(parts[1..], '/') == b;
    assert Join(parts, '/') == a + "/" + b;
    SplitJoin(parts, '/');
  }

  /** Condition and wind cells: both sides of the '/' with surrounding
      whitespace removed, or two empty strings when the split does not give
      two parts. */
  function TextPair(cell: string): (p: (string, string))
    ensures p.0 == [] || (!IsSpace(p.0[0]) && !IsSpace(p.0[|p.0| - 1]))
    ensures p.1 == [] || (!IsSpace(p.1[0]) && !IsSpace(p.1[|p.1| - 1]))
    ensures '/' !in p.0 && '/' !in p.1
  {
    match SplitPair(cell)
    case Some((day, night)) => (Strip(day), Strip(night))
    case None => ("", "")
  }

  /** Temperature cell: like `TextPair`, and then every trailing '℃' of each
      stripped side is removed as well. */
  function TemperaturePair(cell: string): (p: (string, string))
    ensures p.0 == [] || (!IsSpace(p.0[0]) && p.0[|p.0| - 1] != '℃')
    ensures p.1 == [] || (!IsSpace(p.1[0]) && p.1[|p.1| - 1] != '℃')
    ensures '/' !in p.0 && '/' !in p.1
  {
    match SplitPair(cell)
    case Some((high, low)) => (TemperatureSide(high), TemperatureSide(low))
    case None => ("", "")
  }

  /** One side of a temperature cell: stripped, then without its trailing
      '℃' signs. */
  function TemperatureSide(side: string): (r: string)
    ensures r == [] || (!IsSpace(r[0]) && r[|r| - 1] != '℃')
    ensures '/' !in side ==> '/' !in r
  {
    var stripped := Strip(side);
    var r := TrimEnd(stripped, Only('℃'));
    assert r != [] ==> r[0] == stripped[0];
    StripWithin(side, '/');
    TrimEndWithin(stripped, Only('℃'), '/');
    r
  }

  /** A cell with one '/' gives its two sides, stripped; a temperature side
      also loses its trailing '℃' signs, so it never ends with one. */
  lemma CellPairsOf(a: string, b: string)
    requires '/' !in a && '/' !in b
    ensures TextPair(a + "/" + b) == (Strip(a), Strip(b))
    ensures var t := TemperaturePair(a + "/" + b);
      && t == (TrimEnd(Strip(a), Only('℃')), TrimEnd(Strip(b), Only('℃')))
      && (t.0 != [] ==> t.0[|t.0| - 1] != '℃')
      && (t.1 != [] ==> t.1[|t.1| - 1] != '℃')
  {
    SplitPairOf(a, b);
  }

  /** A cell without exactly one '/' gives two empty strings. */
  lemma CellPairsMalformed(cell: string)
    requires multiset(cell)['/'] != 1
    ensures TextPair(cell) == ("", "") && TemperaturePair(cell) == ("", "")
  {
    SplitPairCount(cell);
  }

  /** The record one table row yields, or `None` when its date cell does not
      match the date pattern. The year column is the requested year and the
      month column the (padded) requested month without leading zeros; the
      cell's own year and month groups are not used. The day is the day group
      without leading zeros. Each of the three other categories is read from
      its own cell only and falls back to empty strings on its own. */
  function ParseRow(year: string, month2: string, cells: seq<string>): (r: Option<DailyRecord>)
    requires WellFormedRow(cells)
    ensures r.Some? <==> MatchDate(cells[0]).Some?
    ensures r.Some? ==> r.value.year == year && r.value.month == TrimStart(month2, Only('0'))
  {
    match MatchDate(cells[0])
    case None => None
    case Some(date) =>
      var weather, temperature, wind := TextPair(cells[1]), TemperaturePair(cells[2]), TextPair(cells[3]);
      Some(DailyRecord(year, TrimStart(month2, Only('0')), TrimStart(date.day, Only('0')),
                       weather.0, weather.1, temperature.0, temperature.1, wind.0, wind.1))
  }

  /** Replacing one category's cell changes that category's two fields and
      nothing else: a malformed cell never costs the row or another field. */
  lemma CategoriesIndependent(year: string, month2: string, cells: seq<string>, k: nat, other: string)
    requires WellFormedRow(cells) && MatchDate(cells[0]).Some? && 1 <= k <= 3
    ensures var r, r' := ParseRow(year, month2, cells), ParseRow(year, month2, cells[k := other]);
      && r.Some? && r'.Some?
      && r'.value.year == r.value.year && r'.value.month == r.value.month && r'.value.day == r.value.day
      && (k != 1 ==> r'.value.dayWeather == r.value.dayWeather && r'.value.nightWeather == r.value.nightWeather)
      && (k != 2 ==> r'.value.high == r.value.high && r'.value.low == r.value.low)
      && (k != 3 ==> r'.value.dayWind == r.value.dayWind && r'.value.nightWind == r.value.nightWind)
  {
    var changed := cells[k := other];
    assert changed[0] == cells[0];
    assert forall j :: 1 <= j <= 3 && j != k ==> changed[j] == cells[j];
  }

  /** The table rows the extraction can read without failing: every row
      element has the cells it indexes. */
  predicate WellFormedRows(rows: seq<Option<seq<string>>>)
  {
    forall i :: 0 <= i < |rows| && rows[i].Some? ==> WellFormedRow(rows[i].value)
  }

  /** The record one table node yields: none for a node that is not a row
      element or a row whose date does not match. */
  function RowRecord(year: string, month2: string, row: Option<seq<string>>): (r: Option<DailyRecord>)
    requires row.Some? ==> WellFormedRow(row.value)
    ensures r.Some? ==> r.value.year == year && r.value.month == TrimStart(month2, Only('0'))
  {
    match row
    case None => None
    case Some(cells) => ParseRow(year, month2, cells)
  }

  /** The records of a run of table nodes, position by position. */
  function Records(year: string, month2: string, rows: seq<Option<seq<string>>>): (recs: seq<Option<DailyRecord>>)
    requires WellFormedRows(rows)
    ensures |recs| == |rows|
    ensures forall i :: 0 <= i < |rows| ==> recs[i] == RowRecord(year, month2, rows[i])
  {
    seq(|rows|, i requires 0 <= i < |rows| => RowRecord(year, month2, rows[i]))
  }

  /** The sheet rows appended for a run of records: one row per record that
      exists, in order. */
  function Emitted(recs: seq<Option<DailyRecord>>): (out: seq<seq<string>>)
    ensures |out| <= |recs|
    ensures forall j :: 0 <= j < |out| ==> |out[j]| == |Header|
  {
    if recs == [] then []
    else
      var last := recs[|recs| - 1];
      Emitted(recs[..|recs| - 1]) + (if last.Some? then [Fields(last.value)] else [])
  }

  lemma {:induction false} EmittedAppend(a: seq<Option<DailyRecord>>, b: seq<Option<DailyRecord>>)
    ensures Emitted(a + b) == Emitted(a) + Emitted(b)
    decreases |b|
  {
    var ab := a + b;
    if b == [] {
      assert ab == a;
    } else {
      assert ab[..|ab| - 1] == a + b[..|b| - 1];
      EmittedAppend(a, b[..|b| - 1]);
    }
  }

  /** Only records that exist produce rows: the number of rows is the
      number of records. */
  lemma {:induction false} EmittedCount(recs: seq<Option<DailyRecord>>)
    ensures |Emitted(recs)| == |set i | 0 <= i < |recs| && recs[i].Some?|
  {
    var n := |recs|;
    if n > 0 {
      var init := recs[..n - 1];
      EmittedCount(init);
      var before := set i | 0 <= i < n - 1 && init[i].Some?;
      var now := set i | 0 <= i < n && recs[i].Some?;
      assert forall i :: 0 <= i < n - 1 ==> init[i] == recs[i];
      if recs[n - 1].Some? {
        assert now == before + {n - 1};
      } else {
        assert now == before;
      }
    }
  }

  /** Every appended row carries the year and month of its record. */
  lemma {:induction false} EmittedColumns(recs: seq<Option<DailyRecord>>, year: string, month: string)
    requires forall i :: 0 <= i < |recs| && recs[i].Some? ==> recs[i].value.year == year && recs[i].value.month == month
    ensures forall j :: 0 <= j < |Emitted(recs)| ==> Emitted(recs)[j][0] == year && Emitted(recs)[j][1] == month
  {
    if recs != [] {
      var init := recs[..|recs| - 1];
      EmittedColumns(init, year, month);
    }
  }

  /** The rows appended for the table rows `rows`, in order. */
  function Extracted(year: string, month2: string, rows: seq<Option<seq<string>>>): (out: seq<seq<string>>)
    requires WellFormedRows(rows)
    ensures |out| <= |rows|
  {
    Emitted(Records(year, month2, rows))
  }

  /** Every appended row has the 9 header columns, the requested year and
      the requested month without its leading zero. */
  lemma ExtractedColumns(year: string, month2: string, rows: seq<Option<seq<string>>>)
    requires WellFormedRows(rows)
    ensures forall j :: 0 <= j < |Extracted(year, month2, rows)| ==>
      var row := Extracted(year, month2, rows)[j];
      |row| == |Header| && row[0] == year && row[1] == TrimStart(month2, Only('0'))
  {
    EmittedColumns(Records(year, month2, rows), year, TrimStart(month2, Only('0')));
  }

  /** One table node contributes the row of its record, if it has one. */
  lemma ExtractedSingle(year: string, month2: string, x: Option<seq<string>>)
    requires x.Some? ==> WellFormedRow(x.value)
    ensures WellFormedRows([x])
    ensures var r := RowRecord(year, month2, x);
      Extracted(year, month2, [x]) == if r.Some? then [Fields(r.value)] else []
  {
    var recs := Records(year, month2, [x]);
    assert recs == [RowRecord(year, month2, x)];
    assert recs[..0] == [];
  }

  /** Rows are handled one at a time and in order: the output for two runs of
      rows is the output for the first followed by that for the second. */
  lemma ExtractedAppend(year: string, month2: string, a: seq<Option<seq<string>>>, b: seq<Option<seq<string>>>)
    requires WellFormedRows(a) && WellFormedRows(b)
    ensures WellFormedRows(a + b)
    ensures Extracted(year, month2, a + b) == Extracted(year, month2, a) + Extracted(year, month2, b)
  {
    var ra, rb, rab := Records(year, month2, a), Records(year, month2, b), Records(year, month2, a + b);
    forall i | 0 <= i < |a + b| ensures rab[i] == (ra + rb)[i] {
      if i < |a| {
        assert (a + b)[i] == a[i];
      } else {
        assert (a + b)[i] == b[i - |a|];
      }
    }
    assert rab == ra + rb;
    EmittedAppend(Records(year, month2, a), Records(year, month2, b));
  }

  /** A row that fails the date pattern (or is not a row element) adds
      nothing, and the rows around it are extracted as if it were absent. */
  lemma SkippedRow(year: string, month2: string, a: seq<Option<seq<string>>>, x: Option<seq<string>>, b: seq<Option<seq<string>>>)
    requires WellFormedRows(a) && WellFormedRows(b)
    requires x.Some? ==> WellFormedRow(x.value) && MatchDate(x.value[0]).None?
    ensures WellFormedRows(a + [x] + b)
    ensures Extracted(year, month2, a + [x] + b) == Extracted(year, month2, a) + Extracted(year, month2, b)
  {
    ExtractedAppend(year, month2, a, [x]);
    ExtractedAppend(year, month2, a + [x], b);
    var skipped: seq<Option<DailyRecord>> := [None];
    assert Records(year, month2, [x]) == skipped;
    assert Emitted(skipped) == [] by {
      assert skipped[..0] == [];
    }
  }

  /** The rows a page contributes: none unless the status is 200 and the
      table exists; then one per qualifying table row after the first (the
      header row of the table). */
  function PageRows(year: string, month2: string, page: Response): (rows: seq<seq<string>>)
    requires WellFormedPage(page)
    ensures rows != [] ==> page.status == 200 && page.table.Some? && |rows| < |page.table.value|
    ensures forall j :: 0 <= j < |rows| ==>
      |rows[j]| == |Header| && rows[j][0] == year && rows[j][1] == TrimStart(month2, Only('0'))
  {
    if page.status != 200 || page.table.None? || |page.table.value| == 0 then []
    else
      ExtractedColumns(year, month2, page.table.value[1..]);
      Extracted(year, month2, page.table.value[1..])
  }

  /** The rows a month request appends: none unless the request is valid. */
  function MonthRows(year: string, month: string, today: Today, page: Response): (rows: seq<seq<string>>)
    requires IsNumeral(year) && IsNumeral(month) && WellFormedPage(page)
    ensures rows != [] ==> Fetched(year, month, today, page)
    ensures forall j :: 0 <= j < |rows| ==>
      |rows[j]| == |Header| && rows[j][0] == year && rows[j][1] == NatToString(ParseNat(month))
  {
    if !Accepted(year, month, today) then []
    else
      MonthColumn(month);
      PageRows(year, PadMonth(month), page)
  }

  /** The table was reached: the month's rows were processed (and, for a
      file target, saved). */
  predicate Fetched(year: string, month: string, today: Today, page: Response)
    requires IsNumeral(year) && IsNumeral(month)
  {
    Accepted(year, month, today) && page.status == 200 && page.table.Some?
  }

  // ---------------------------------------------------------------------
  // The records behind the rows

  /** The records that exist in a run of table nodes, in order. */
  function Present(recs: seq<Option<DailyRecord>>): (out: seq<DailyRecord>)
    ensures |out| <= |recs|
    ensures forall j :: 0 <= j < |out| ==> Some(out[j]) in recs
  {
    if recs == [] then []
    else
      var init, last := recs[..|recs| - 1], recs[|recs| - 1];
      assert forall x :: x in init ==> x in recs;
      Present(init) + (if last.Some? then [last.value] else [])
  }

  /** The rows appended for a run of records are the rows of the records
      that exist. */
  lemma {:induction false} EmittedPresent(recs: seq<Option<DailyRecord>>)
    ensures Emitted(recs) == RowsOf(Present(recs))
  {
    if recs != [] {
      var init, last := recs[..|recs| - 1], recs[|recs| - 1];
      EmittedPresent(init);
      var tail := if last.Some? then [last.value] else [];
      RowsOfAppend(Present(init), tail);
      assert RowsOf(tail) == if last.Some? then [Fields(last.value)] else [];
    }
  }

  /** The records a page contributes, in table order; all of them carry the
      requested year and the month without its leading zero. */
  function PageRecords(year: string, month2: string, page: Response): (recs: seq<DailyRecord>)
    requires WellFormedPage(page)
    ensures forall j :: 0 <= j < |recs| ==> recs[j].year == year && recs[j].month == TrimStart(month2, Only('0'))
  {
    if page.status != 200 || page.table.None? || |page.table.value| == 0 then []
    else Present(Records(year, month2, page.table.value[1..]))
  }

  /** The records of a month request: none unless the request is valid, and
      then all of that month, named by its canonical numeral. */
  function MonthRecords(year: string, month: string, today: Today, page: Response): (recs: seq<DailyRecord>)
    requires IsNumeral(year) && IsNumeral(month) && WellFormedPage(page)
    ensures recs != [] ==> Accepted(year, month, today)
    ensures forall j :: 0 <= j < |recs| ==> recs[j].year == year && recs[j].month == NatToString(ParseNat(month))
  {
    if !Accepted(year, month, today) then []
    else
      MonthColumn(month);
      PageRecords(year, PadMonth(month), page)
  }

  /** The number of the month a record names, 0 when it names none. */
  function MonthNumber(r: DailyRecord): nat
  {
    if IsNumeral(r.month) then ParseNat(r.month) else 0
  }

  /** A record a year request may produce by month n: of the requested year
      and of an accepted month between 1 and n, named by its canonical
      numeral. */
  predicate FromYear(r: DailyRecord, year: string, today: Today, n: nat)
    requires IsNumeral(year)
  {
    && r.year == year && IsNumeral(r.month)
    && 1 <= MonthNumber(r) <= n
    && r.month == NatToString(MonthNumber(r))
    && Accepted(year, r.month, today)
  }

  /** The records of months 1..n of a year request, each from one of those
      months, in ascending month order. */
  function YearRecords(year: string, today: Today, pages: seq<Response>, n: nat): (recs: seq<DailyRecord>)
    requires IsNumeral(year) && n <= |pages|
    requires forall i :: 0 <= i < |pages| ==> WellFormedPage(pages[i])
    ensures forall j :: 0 <= j < |recs| ==> FromYear(recs[j], year, today, n)
    ensures forall i, j :: 0 <= i < j < |recs| ==> MonthNumber(recs[i]) <= MonthNumber(recs[j])
  {
    if n == 0 then []
    else
      var prev := YearRecords(year, today, pages, n - 1);
      var added := MonthRecords(year, NatToString(n), today, pages[n - 1]);
      YearRecordsStep(year, today, prev, added, n);
      prev + added
  }

  /** Appending the records of month n keeps a year's records in order. */
  lemma YearRecordsStep(year: string, today: Today, prev: seq<DailyRecord>, added: seq<DailyRecord>, n: nat)
    requires IsNumeral(year) && n >= 1
    requires forall j :: 0 <= j < |prev| ==> FromYear(prev[j], year, today, n - 1)
    requires forall i, j :: 0 <= i < j < |prev| ==> MonthNumber(prev[i]) <= MonthNumber(prev[j])
    requires added != [] ==> Accepted(year, NatToString(n), today)
    requires forall j :: 0 <= j < |added| ==> added[j].month == NatToString(n) && added[j].year == year
    ensures forall j :: 0 <= j < |prev + added| ==> FromYear((prev + added)[j], year, today, n)
    ensures forall i, j :: 0 <= i < j < |prev + added| ==> MonthNumber((prev + added)[i]) <= MonthNumber((prev + added)[j])
  {
    var all := prev + added;
    forall j | 0 <= j < |all| ensures FromYear(all[j], year, today, n) && (j >= |prev| ==> MonthNumber(all[j]) == n) {
      if j < |prev| {
        assert all[j] == prev[j];
      } else {
        assert all[j] == added[j - |prev|];
      }
    }
    forall i, j | 0 <= i < j < |all| ensures MonthNumber(all[i]) <= MonthNumber(all[j]) {
      if j < |prev| {
        assert all[i] == prev[i] && all[j] == prev[j];
      }
    }
  }

  lemma PageRowsRecords(year: string, month2: string, page: Response)
    requires WellFormedPage(page)
    ensures PageRows(year, month2, page) == RowsOf(PageRecords(year, month2, page))
  {
    if !(page.status != 200 || page.table.None? || |page.table.value| == 0) {
      EmittedPresent(Records(year, month2, page.table.value[1..]));
    }
  }

  /** The rows a month request appends are the rows of its records; on a
      readable sheet they read back as those records, after the ones already
      there. */
  lemma MonthSheetRead(year: string, month: string, today: Today, page: Response, base: seq<seq<string>>)
    requires IsNumeral(year) && IsNumeral(month) && WellFormedPage(page)
    requires Readable(base)
    ensures MonthRows(year, month, today, page) == RowsOf(MonthRecords(year, month, today, page))
    ensures Readable(base + MonthRows(year, month, today, page))
    ensures ReadFrame(base + MonthRows(year, month, today, page)) == ReadFrame(base) + MonthRecords(year, month, today, page)
  {
    if Accepted(year, month, today) {
      PageRowsRecords(year, PadMonth(month), page);
    }
    ReadAppended(base, MonthRecords(year, month, today, page));
  }

  /** The rows a year request appends are the rows of its records. */
  lemma {:induction false} YearRowsRecords(year: string, today: Today, pages: seq<Response>, n: nat)
    requires IsNumeral(year) && n <= |pages|
    requires forall i :: 0 <= i < |pages| ==> WellFormedPage(pages[i])
    ensures YearRows(year, today, pages, n) == RowsOf(YearRecords(year, today, pages, n))
  {
    if n > 0 {
      var m := NatToString(n);
      YearRowsRecords(year, today, pages, n - 1);
      if Accepted(year, m, today) {
        PageRowsRecords(year, PadMonth(m), pages[n - 1]);
      }
      RowsOfAppend(YearRecords(year, today, pages, n - 1), MonthRecords(year, m, today, pages[n - 1]));
    }
  }

  /** A readable sheet that a year request appends to reads back as the
      records it held followed by the year's records. */
  lemma YearSheetRead(year: string, today: Today, pages: seq<Response>, base: seq<seq<string>>)
    requires IsNumeral(year) && |pages| == 12
    requires forall i :: 0 <= i < |pages| ==> WellFormedPage(pages[i])
    requires Readable(base)
    ensures Readable(base + YearRows(year, today, pages, 12))
    ensures ReadFrame(base + YearRows(year, today, pages, 12)) == ReadFrame(base) + YearRecords(year, today, pages, 12)
  {
    YearRowsRecords(year, today, pages, 12);
    ReadAppended(base, YearRecords(year, today, pages, 12));
  }

  // ---------------------------------------------------------------------
  // fetch_weather_data

  /** Where a month's rows go: a dataset name (opened or created, and saved
      after the rows are added) or an open workbook (never saved here). */
  datatype Target = FileName(name: string) | InMemory(wb: Workbook)

  /** One node of the table: a row element whose date matches appends its
      record to the sheet; anything else is skipped. */
  method ProcessRow(wb: Workbook, year: string, month2: string, row: Option<seq<string>>)
    requires row.Some? ==> WellFormedRow(row.value)
    modifies wb
    ensures WellFormedRows([row])
    ensures wb.rows == old(wb.rows) + Extracted(year, month2, [row])
  {
    ExtractedSingle(year, month2, row);
    if row.Some? {
      var rec := ParseRow(year, month2, row.value);
      if rec.Some? {
        wb.Append(Fields(rec.value));
      }
    }
  }

  /** Every row of the table after the first (the table head), in order. */
  method ProcessTable(wb: Workbook, year: string, month2: string, rows: seq<Option<seq<string>>>)
    requires WellFormedTable(rows)
    modifies wb
    ensures wb.rows == old(wb.rows) + (if rows == [] then [] else Extracted(year, month2, rows[1..]))
  {
    if rows == [] {
      assert wb.rows == old(wb.rows) + [];
      return;
    }
    var body := rows[1..];
    for i := 0 to |body|
      invariant WellFormedRows(body[..i])
      invariant wb.rows == old(wb.rows) + Extracted(year, month2, body[..i])
    {
      ExtractedStep(year, month2, body, i);
      ProcessRow(wb, year, month2, body[i]);
      AppendAssociative(old(wb.rows), Extracted(year, month2, body[..i]), Extracted(year, month2, [body[i]]));
    }
    assert body[..|body|] == body;
  }

  /** Extending the processed prefix by one node appends that node's row. */
  lemma ExtractedStep(year: string, month2: string, rows: seq<Option<seq<string>>>, i: nat)
    requires WellFormedRows(rows) && i < |rows|
    ensures WellFormedRows(rows[..i]) && WellFormedRows([rows[i]]) && WellFormedRows(rows[..i + 1])
    ensures rows[i].Some? ==> WellFormedRow(rows[i].value)
    ensures Extracted(year, month2, rows[..i + 1]) == Extracted(year, month2, rows[..i]) + Extracted(year, month2, [rows[i]])
  {
    assert forall j :: 0 <= j < i ==> rows[..i][j] == rows[j];
    assert rows[..i + 1] == rows[..i] + [rows[i]];
    ExtractedAppend(year, month2, rows[..i], [rows[i]]);
  }

  /** The page of an accepted request: when the status is 200 and the table
      exists, its rows are processed and the caller saves a file target. */
  method ProcessPage(wb: Workbook, year: string, month2: string, page: Response) returns (fetched: bool)
    requires WellFormedPage(page)
    modifies wb
    ensures fetched <==> page.status == 200 && page.table.Some?
    ensures wb.rows == old(wb.rows) + PageRows(year, month2, page)
  {
    fetched := page.status == 200 && page.table.Some?;
    if fetched {
      ProcessTable(wb, year, month2, page.table.value);
    } else {
      assert wb.rows == old(wb.rows) + [];
    }
  }

  /** Fetch one month into the target. Returns the address requested, or
      `None` when validation failed and no request was made. */
  method FetchMonth(target: Target, dir: DataDir, city: string, year: string, month: string,
                    today: Today, page: Response) returns (url: Option<string>)
    requires IsNumeral(year) && IsNumeral(month) && WellFormedPage(page)
    modifies dir, if target.InMemory? then {target.wb} else {}
    ensures url == if Accepted(year, month, today) then Some(Url(city, year, PadMonth(month))) else None
    ensures target.InMemory? ==>
      && target.wb.rows == old(target.wb.rows) + MonthRows(year, month, today, page)
      && dir.files == old(dir.files) && dir.saves == old(dir.saves)
    ensures target.FileName? && !Accepted(year, month, today) ==>
      dir.files == old(dir.files) && dir.saves == old(dir.saves)
    ensures target.FileName? && Accepted(year, month, today) ==>
      var path := PathOf(target.name);
      var base := if path in old(dir.files) then old(dir.files)[path] else [Header];
      && dir.files == old(dir.files)[path := base + MonthRows(year, month, today, page)]
      && dir.saves == old(dir.saves) + (if path in old(dir.files) then 0 else 1)
                                     + (if Fetched(year, month, today, page) then 1 else 0)
  {
    if CheckRequest(ParseNat(year), ParseNat(month), today).Some? {
      assert MonthRows(year, month, today, page) == [];
      if target.InMemory? {
        assert target.wb.rows == target.wb.rows + [];
      }
      return None;
    }
    var month2 := PadMonth(month);
    ghost var added := PageRows(year, month2, page);
    assert MonthRows(year, month, today, page) == added;
    var wb: Workbook;
    if target.FileName? {
      wb := dir.OpenOrCreate(PathOf(target.name));
    } else {
      wb := target.wb;
    }
    ghost var base := wb.rows;
    url := Some(Url(city, year, month2));
    var fetched := ProcessPage(wb, year, month2, page);
    assert wb.rows == base + added;
    if target.FileName? {
      var path := PathOf(target.name);
      assert dir.files == old(dir.files)[path := base];
      if fetched {
        dir.Save(path, wb);
        assert dir.files == old(dir.files)[path := base][path := base + added];
      } else {
        assert added == [] && base + added == base;
      }
    }
  }

  // ---------------------------------------------------------------------
  // fetch_weather_data_year

  /** The rows months 1..n of a year request append, month by month. */
  function YearRows(year: string, today: Today, pages: seq<Response>, n: nat): (rows: seq<seq<string>>)
    requires IsNumeral(year) && n <= |pages|
    requires forall i :: 0 <= i < |pages| ==> WellFormedPage(pages[i])
    ensures forall j :: 0 <= j < |rows| ==> |rows[j]| == |Header| && rows[j][0] == year
  {
    if n == 0 then []
    else YearRows(year, today, pages, n - 1) + MonthRows(year, NatToString(n), today, pages[n - 1])
  }

  /** The addresses requested for months 1..n, in order. */
  function YearUrls(city: string, year: string, today: Today, n: nat): (urls: seq<string>)
    requires IsNumeral(year)
    ensures |urls| <= n
  {
    if n == 0 then []
    else
      var m := NatToString(n);
      YearUrls(city, year, today, n - 1)
        + (if Accepted(year, m, today) then [Url(city, year, PadMonth(m))] else [])
  }

  /** How many of the months 1..12 of `year` pass validation: all twelve in
      a past year of the range, those up to today's in the current year,
      none outside the range. */
  function AcceptedMonths(year: int, today: Today): (k: nat)
    ensures k <= 12
    ensures forall m :: 1 <= m <= 12 ==> (CheckRequest(year, m, today).None? <==> m <= k)
  {
    if year < 2011 || year > today.year then 0
    else if year < today.year then 12
    else if today.month < 0 then 0
    else if today.month > 12 then 12
    else today.month
  }

  /** The addresses requested for months 1..n are those of the first
      accepted months, one per month and in ascending order. */
  lemma YearUrlsInOrder(city: string, year: string, today: Today, n: nat)
    requires IsNumeral(year) && n <= 12
    ensures var k := if n <= AcceptedMonths(ParseNat(year), today) then n else AcceptedMonths(ParseNat(year), today);
      && |YearUrls(city, year, today, n)| == k
      && forall j :: 0 <= j < k ==> YearUrls(city, year, today, n)[j] == Url(city, year, PadMonth(NatToString(j + 1)))
  {
    YearUrlsCount(city, year, today, n);
    YearUrlsAt(city, year, today, n);
  }

  /** Month `n` is requested exactly when it is among the accepted months. */
  lemma MonthAccepted(year: string, today: Today, n: nat)
    requires IsNumeral(year) && 1 <= n <= 12
    ensures Accepted(year, NatToString(n), today) <==> n <= AcceptedMonths(ParseNat(year), today)
  {
    assert ParseNat(NatToString(n)) == n;
  }

  lemma {:induction false} YearUrlsCount(city: string, year: string, today: Today, n: nat)
    requires IsNumeral(year) && n <= 12
    ensures |YearUrls(city, year, today, n)| == if n <= AcceptedMonths(ParseNat(year), today) then n else AcceptedMonths(ParseNat(year), today)
  {
    if n > 0 {
      YearUrlsCount(city, year, today, n - 1);
      MonthAccepted(year, today, n);
    }
  }

  lemma {:induction false} YearUrlsAt(city: string, year: string, today: Today, n: nat)
    requires IsNumeral(year) && n <= 12
    ensures forall j :: 0 <= j < |YearUrls(city, year, today, n)| ==>
      YearUrls(city, year, today, n)[j] == Url(city, year, PadMonth(NatToString(j + 1)))
  {
    if n > 0 {
      YearUrlsAt(city, year, today, n - 1);
      YearUrlsCount(city, year, today, n - 1);
      MonthAccepted(year, today, n);
      var prev, urls := YearUrls(city, year, today, n - 1), YearUrls(city, year, today, n);
      if Accepted(year, NatToString(n), today) {
        var u := Url(city, year, PadMonth(NatToString(n)));
        assert urls == prev + [u];
        AppendOne(prev, u);
        assert |prev| == n - 1;
        forall j | 0 <= j < |urls| ensures urls[j] == Url(city, year, PadMonth(NatToString(j + 1))) {
          if j < n - 1 {
            assert urls[j] == prev[j];
          } else {
            assert j + 1 == n;
          }
        }
      } else {
        assert urls == prev;
      }
    }
  }

  lemma AppendOne<T>(s: seq<T>, x: T)
    ensures |s + [x]| == |s| + 1 && (s + [x])[|s|] == x
    ensures forall j :: 0 <= j < |s| ==> (s + [x])[j] == s[j]
  {
  }

  /** Outside the accepted years nothing is requested and nothing is added. */
  lemma {:induction false} YearRowsRejected(year: string, today: Today, pages: seq<Response>, n: nat)
    requires IsNumeral(year) && n <= |pages|
    requires forall i :: 0 <= i < |pages| ==> WellFormedPage(pages[i])
    requires ParseNat(year) < 2011 || ParseNat(year) > today.year
    ensures YearRows(year, today, pages, n) == []
  {
    if n > 0 {
      YearRowsRejected(year, today, pages, n - 1);
    }
  }

  /** The month column of an accepted request is the month's canonical
      numeral: `month.lstrip('0')` after padding is `str(int(month))`. */
  lemma MonthColumn(month: string)
    requires IsNumeral(month) && ParseNat(month) >= 1
    ensures TrimStart(PadMonth(month), Only('0')) == NatToString(ParseNat(month))
  {
    StripLeadingZeros(PadMonth(month));
  }

  lemma DateCellExample()
    ensures MatchDate("2023年3月5日") == Some(DateGroups("2023", "3", "5"))
  {
    var g := DateGroups("2023", "3", "5");
    MatchDateSpelled(g, "");
    assert Spelled(g) + "" == "2023年3月5日";
  }

  /** Neither starts nor ends with whitespace. */
  predicate Unpadded(s: string)
  {
    s != [] ==> !IsSpace(s[0]) && !IsSpace(s[|s| - 1])
  }

  predicate AllSpace(s: string)
  {
    forall i :: 0 <= i < |s| ==> IsSpace(s[i])
  }

  /** A weather or wind cell: whatever whitespace surrounds either side of
      the '/', the two sides come back exactly. */
  lemma TextCellOf(pa: string, a: string, qa: string, pb: string, b: string, qb: string)
    requires AllSpace(pa) && AllSpace(qa) && AllSpace(pb) && AllSpace(qb)
    requires Unpadded(a) && Unpadded(b) && '/' !in a && '/' !in b
    ensures TextPair((pa + a + qa) + "/" + (pb + b + qb)) == (a, b)
  {
    assert '/' !in pa + a + qa && '/' !in pb + b + qb;
    CellPairsOf(pa + a + qa, pb + b + qb);
    StripOf(pa, a, qa);
    StripOf(pb, b, qb);
  }

  /** A temperature cell: each side is a value followed by one '℃', padded
      with whitespace, and comes back as the bare value. */
  lemma TemperatureCellOf(pa: string, x: string, qa: string, pb: string, y: string, qb: string)
    requires AllSpace(pa) && AllSpace(qa) && AllSpace(pb) && AllSpace(qb)
    requires x != [] && Unpadded(x) && x[|x| - 1] != '℃' && '/' !in x
    requires y != [] && Unpadded(y) && y[|y| - 1] != '℃' && '/' !in y
    ensures TemperaturePair((pa + x + "℃" + qa) + "/" + (pb + y + "℃" + qb)) == (x, y)
  {
    DegreeSide(pa, x, qa);
    DegreeSide(pb, y, qb);
    CellPairsOf(pa + x + "℃" + qa, pb + y + "℃" + qb);
  }

  /** One side of a temperature cell. */
  lemma DegreeSide(p: string, x: string, q: string)
    requires AllSpace(p) && AllSpace(q)
    requires x != [] && Unpadded(x) && x[|x| - 1] != '℃' && '/' !in x
    ensures '/' !in p + x + "℃" + q
    ensures TrimEnd(Strip(p + x + "℃" + q), Only('℃')) == x
  {
    var a := x + "℃";
    DegreeCore(x);
    assert p + x + "℃" + q == p + a + q;
    NoSlashAround(p, a, q);
    StripOf(p, a, q);
    TrimEndOf(x, "℃", Only('℃'));
  }

  /** A reading with its unit neither starts nor ends with whitespace and
      holds no '/'. */
  lemma DegreeCore(x: string)
    requires x != [] && Unpadded(x) && '/' !in x
    ensures var a := x + "℃"; a != [] && !IsSpace(a[0]) && !IsSpace(a[|a| - 1]) && '/' !in a
  {
    var a := x + "℃";
    assert a[0] == x[0] && a[|a| - 1] == '℃';
    assert a == x + ['℃'];
  }

  lemma NoSlashAround(p: string, a: string, q: string)
    requires AllSpace(p) && AllSpace(q) && '/' !in a
    ensures '/' !in p + a + q
  {
    assert '/' !in p && '/' !in q;
  }

  /** A table row as the site shows it: the day loses nothing, the padded
      month loses its '0', each side is stripped and the '℃' removed. */
  lemma ParseRowExample()
    ensures ParseRow("2023", "03", ["2023年3月5日", " 晴 / 多云 ", "10℃ / 2℃", "北风 3级/南风 2级"])
         == Some(DailyRecord("2023", "3", "5", "晴", "多云", "10", "2", "北风 3级", "南风 2级"))
  {
    DateCellExample();
    ExampleColumns();
    ExampleWeather();
    ExampleTemperature();
    ExampleWind();
  }

  lemma ExampleColumns()
    ensures TrimStart("03", Only('0')) == "3" && TrimStart("5", Only('0')) == "5"
  {
    assert "03" == "0" + "3";
    TrimStartOf("0", "3", Only('0'));
    assert "5" == "" + "5";
    TrimStartOf("", "5", Only('0'));
  }

  lemma ExampleWeather()
    ensures TextPair(" 晴 / 多云 ") == ("晴", "多云")
  {
    assert " 晴 / 多云 " == (" " + "晴" + " ") + "/" + (" " + "多云" + " ");
    TextCellOf(" ", "晴", " ", " ", "多云", " ");
  }

  lemma ExampleTemperature()
    ensures TemperaturePair("10℃ / 2℃") == ("10", "2")
  {
    assert "10℃ / 2℃" == ("" + "10" + "℃" + " ") + "/" + (" " + "2" + "℃" + "");
    TemperatureCellOf("", "10", " ", " ", "2", "");
  }

  lemma ExampleWind()
    ensures TextPair("北风 3级/南风 2级") == ("北风 3级", "南风 2级")
  {
    assert "北风 3级/南风 2级" == ("" + "北风 3级" + "") + "/" + ("" + "南风 2级" + "");
    TextCellOf("", "北风 3级", "", "", "南风 2级", "");
  }

  /** A date written without the characters 年, 月 and 日 does not match, so
      the row is skipped. */
  lemma ParseRowNoDate()
    ensures ParseRow("2023", "03", ["2023-03-05", "晴/多云", "10℃/2℃", "北风/南风"]).None?
  {
    DateCellNoMatch("2023-03-05");
  }

  /** A short row without a date, such as the one-cell "no data" row some
      pages carry, is read without failing and skipped. */
  lemma ShortRowSkipped()
    ensures WellFormedRow(["暂无数据"]) && ParseRow("2023", "03", ["暂无数据"]).None?
  {
    DateCellNoMatch("暂无数据");
  }

  lemma DateCellNoMatch(t: string)
    requires '日' !in t
    ensures MatchDate(t).None?
  {
    var line := FirstLine(t);
    FirstLineSpec(t);
    assert forall i :: 0 <= i < |line| ==> line[i] == t[i];
    assert '日' !in line;
    LastIndexOfSpec(line, '日');
  }

  /** Fetch months "1" to "12" of a year, in ascending order, into one
      workbook, then save it once; a month that fails adds nothing and the
      loop goes on. */
  method FetchYear(dir: DataDir, name: string, city: string, year: string,
                   today: Today, pages: seq<Response>) returns (urls: seq<string>)
    requires IsNumeral(year) && |pages| == 12
    requires forall i :: 0 <= i < |pages| ==> WellFormedPage(pages[i])
    modifies dir
    ensures urls == YearUrls(city, year, today, 12)
    ensures var path := PathOf(name);
      var base := if path in old(dir.files) then old(dir.files)[path] else [Header];
      && dir.files == old(dir.files)[path := base + YearRows(year, today, pages, 12)]
      && dir.saves == old(dir.saves) + (if path in old(dir.files) then 1 else 2)
    ensures var path := PathOf(name);
      var base := if path in old(dir.files) then old(dir.files)[path] else [Header];
      Readable(base) ==> Readable(dir.files[path]) && ReadFrame(dir.files[path]) == ReadFrame(base) + YearRecords(year, today, pages, 12)
    ensures PathOf(name) !in old(dir.files) ==> ReadFrame(dir.files[PathOf(name)]) == YearRecords(year, today, pages, 12)
  {
    var path := PathOf(name);
    var wb := dir.OpenOrCreate(path);
    ghost var base := wb.rows;
    urls := FetchMonths(wb, dir, city, year, today, pages);
    dir.Save(path, wb);
    YearFileRead(year, today, pages, old(dir.files), path, dir.files);
  }

  /** What a year request leaves in its file reads back as the records the
      file held (none for a new file) followed by the year's records. */
  lemma YearFileRead(year: string, today: Today, pages: seq<Response>,
                     before: map<string, seq<seq<string>>>, path: string, after: map<string, seq<seq<string>>>)
    requires IsNumeral(year) && |pages| == 12
    requires forall i :: 0 <= i < |pages| ==> WellFormedPage(pages[i])
    requires var base := if path in before then before[path] else [Header];
      after == before[path := base + YearRows(year, today, pages, 12)]
    ensures var base := if path in before then before[path] else [Header];
      Readable(base) ==> Readable(after[path]) && ReadFrame(after[path]) == ReadFrame(base) + YearRecords(year, today, pages, 12)
    ensures path !in before ==> ReadFrame(after[path]) == YearRecords(year, today, pages, 12)
  {
    var base := if path in before then before[path] else [Header];
    if Readable(base) {
      YearSheetRead(year, today, pages, base);
    }
    if path !in before {
      assert ReadFrame(base) == [];
    }
  }

  /** The twelve month requests of a year, in ascending order, into one open
      workbook; the data directory is left as it is. */
  method FetchMonths(wb: Workbook, dir: DataDir, city: string, year: string,
                     today: Today, pages: seq<Response>) returns (urls: seq<string>)
    requires IsNumeral(year) && |pages| == 12
    requires forall i :: 0 <= i < |pages| ==> WellFormedPage(pages[i])
    modifies wb, dir
    ensures urls == YearUrls(city, year, today, 12)
    ensures wb.rows == old(wb.rows) + YearRows(year, today, pages, 12)
    ensures dir.files == old(dir.files) && dir.saves == old(dir.saves)
  {
    urls := [];
    ghost var start := wb.rows;
    for m := 1 to 13
      invariant wb.rows == start + YearRows(year, today, pages, m - 1)
      invariant urls == YearUrls(city, year, today, m - 1)
      invariant dir.files == old(dir.files) && dir.saves == old(dir.saves)
    {
      var month := NatToString(m);
      ghost var done := YearRows(year, today, pages, m - 1);
      ghost var added := MonthRows(year, month, today, pages[m - 1]);
      assert YearRows(year, today, pages, m) == done + added;
      var u := FetchMonth(InMemory(wb), dir, city, year, month, today, pages[m - 1]);
      assert wb.rows == (start + done) + added;
      AppendAssociative(start, done, added);
      if u.Some? {
        urls := urls + [u.value];
      }
      assert urls == YearUrls(city, year, today, m);
    }
  }

  lemma AppendAssociative<T>(a: seq<T>, b: seq<T>, c: seq<T>)
    ensures (a + b) + c == a + (b + c)
  {
  }
}
