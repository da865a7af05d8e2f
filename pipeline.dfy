/** How the stages meet: what the fetcher writes is what the analysis reads,
    so properties of fetched records carry over to the charts. */
module Pipeline {
  import opened Common
  import opened Sheet
  import opened DateCell
  import opened Frame
  import opened Fetch
  import opened Analyse

  /** Every wind level the analysis reads from a fetched record is
      non-empty, so the sort key's first character always exists. */
  lemma FetchedLevelsNonEmpty(year: string, month2: string, cells: seq<string>)
    requires WellFormedRow(cells) && ParseRow(year, month2, cells).Some?
    ensures var r := ParseRow(year, month2, cells).value;
      && (LevelOf(r.dayWind).Some? ==> LevelOf(r.dayWind).value != [])
      && (LevelOf(r.nightWind).Some? ==> LevelOf(r.nightWind).value != [])
  {
    var r := ParseRow(year, month2, cells).value;
    WindSideLevels(cells[3]);
    assert r.dayWind == TextPair(cells[3]).0 && r.nightWind == TextPair(cells[3]).1;
  }

  /** Both sides of a wind cell have a non-empty level, if any. */
  lemma WindSideLevels(cell: string)
    ensures var p := TextPair(cell);
      && (LevelOf(p.0).Some? ==> LevelOf(p.0).value != [])
      && (LevelOf(p.1).Some? ==> LevelOf(p.1).value != [])
  {
    var p := TextPair(cell);
    WindForceNonEmpty(p.0);
    WindForceNonEmpty(p.1);
  }

  /** The day wind cells of a table, in row order. */
  function DayWinds(df: seq<DailyRecord>): (cells: seq<string>)
    ensures |cells| == |df|
    ensures forall i :: 0 <= i < |df| ==> cells[i] == df[i].dayWind
  {
    seq(|df|, i requires 0 <= i < |df| => df[i].dayWind)
  }

  /** The rows the fetcher saves for some records, after the header. */
  function SheetOf(recs: seq<DailyRecord>): (rows: seq<seq<string>>)
    ensures Readable(rows) && |rows| == |recs| + 1
  {
    [Header] + RowsOf(recs)
  }

  /** A new file a year request creates is the sheet of the year's
      records. */
  lemma FreshYearSheet(year: string, today: Today, pages: seq<Response>)
    requires IsNumeral(year) && |pages| == 12
    requires forall i :: 0 <= i < |pages| ==> WellFormedPage(pages[i])
    ensures [Header] + YearRows(year, today, pages, 12) == SheetOf(YearRecords(year, today, pages, 12))
  {
    YearRowsRecords(year, today, pages, 12);
  }

  /** A row whose date matches but whose wind cell does not hold exactly one
      '/' is kept, with both wind fields empty; saved and read back, the
      empty day wind cell is missing, and the wind chart as written raises
      on the sheet that holds it. The corrected column reads that cell as
      having no level. */
  lemma MalformedWindCellCrashes(year: string, month2: string, cells: seq<string>, recs: seq<DailyRecord>, i: nat)
    requires WellFormedRow(cells) && MatchDate(cells[0]).Some? && multiset(cells[3])['/'] != 1
    requires i < |recs| && recs[i] == ParseRow(year, month2, cells).value
    ensures recs[i].dayWind == "" && recs[i].nightWind == ""
    ensures WindColumnAsWritten(DayWinds(ReadFrame(SheetOf(recs)))).None?
    ensures WindColumn(DayWinds(ReadFrame(SheetOf(recs))))[i].None?
  {
    CellPairsMalformed(cells[3]);
    ReadWritten(recs);
    var cellsRead := DayWinds(ReadFrame(SheetOf(recs)));
    assert cellsRead[i] == "";
  }

  /** A concrete row that shows it: the site gives one wind for the whole
      day, without the '/' between day and night. */
  lemma MalformedWindExample()
    ensures var cells := ["2023年3月5日", " 晴 / 多云 ", "10℃ / 2℃", "北风 3级"];
      && ParseRow("2023", "03", cells).Some?
      && WindColumnAsWritten(DayWinds([ParseRow("2023", "03", cells).value])).None?
  {
    var cells := ["2023年3月5日", " 晴 / 多云 ", "10℃ / 2℃", "北风 3级"];
    DateCellExample();
    NoSlash("北风 3级");
    MalformedWindCellCrashes("2023", "03", cells, [ParseRow("2023", "03", cells).value], 0);
    ReadWritten([ParseRow("2023", "03", cells).value]);
  }

  lemma NoSlash(s: string)
    requires forall i :: 0 <= i < |s| ==> s[i] != '/'
    ensures multiset(s)['/'] == 0
  {
    assert '/' !in multiset(s);
  }

  /** With the corrected column, every level read from fetched records is a
      non-empty level the wind sort key accepts, whatever cells were
      malformed. */
  lemma CorrectedWindLevels(year: string, month2: string, rows: seq<seq<string>>)
    requires forall j :: 0 <= j < |rows| ==> WellFormedRow(rows[j]) && ParseRow(year, month2, rows[j]).Some?
    ensures var df := seq(|rows|, j requires 0 <= j < |rows| => ParseRow(year, month2, rows[j]).value);
      forall k :: k in WindOccurrences(df) ==> k.1 != []
  {
    var df := seq(|rows|, j requires 0 <= j < |rows| => ParseRow(year, month2, rows[j]).value);
    forall k | k in WindOccurrences(df) ensures k.1 != [] {
      WindOccurrenceOf(df, k);
      var j :| 0 <= j < |df| && df[j].month == k.0 && (LevelOf(df[j].dayWind) == Some(k.1) || LevelOf(df[j].nightWind) == Some(k.1));
      FetchedLevelsNonEmpty(year, month2, rows[j]);
    }
  }
}
