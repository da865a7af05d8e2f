/** The tabular store: one workbook per dataset name, kept as a file
    `data/<name>.xlsx`. A workbook's active sheet is an ordered sequence of
    rows of cell strings; the first row of a sheet the program creates is
    the fixed 9-column header, and every daily record is appended after it.
    Rows are only ever appended, never changed or removed, and nothing is
    durable until the workbook is saved. */
module Sheet {
  import opened Common

  /** Column names of the header row, in the order of a record's fields. */
  const Header: seq<string> := ["年", "月", "日", "白天天气", "夜间天气", "最高温度/℃", "最低温度/℃", "白天风力风向", "夜间风力风向"]

  /** One day's observation as the fetcher writes it: every field is the
      text placed in the cell, and "" is a cell left empty. */
  datatype DailyRecord = DailyRecord(
    year: string, month: string, day: string,
    dayWeather: string, nightWeather: string,
    high: string, low: string,
    dayWind: string, nightWind: string)

  /** The sheet row of a record, in header order. */
  function Fields(r: DailyRecord): (row: seq<string>)
    ensures |row| == |Header| == 9
  {
    [r.year, r.month, r.day, r.dayWeather, r.nightWeather, r.high, r.low, r.dayWind, r.nightWind]
  }

  /** The sheet rows of some records, one row per record, in order. */
  function RowsOf(recs: seq<DailyRecord>): (rows: seq<seq<string>>)
    ensures |rows| == |recs|
    ensures forall i :: 0 <= i < |recs| ==> rows[i] == Fields(recs[i])
  {
    seq(|recs|, i requires 0 <= i < |recs| => Fields(recs[i]))
  }

  /** Writing two runs of records writes the rows of each, one after the
      other. */
  lemma RowsOfAppend(a: seq<DailyRecord>, b: seq<DailyRecord>)
    ensures RowsOf(a + b) == RowsOf(a) + RowsOf(b)
  {
    var ab, rows := a + b, RowsOf(a) + RowsOf(b);
    forall i | 0 <= i < |ab| ensures RowsOf(ab)[i] == rows[i] {
      if i < |a| {
        assert ab[i] == a[i];
      } else {
        assert ab[i] == b[i - |a|];
      }
    }
  }

  /** An empty cell; the spreadsheet library stores "" as no value at all, so
      the analysis reads it back as a missing value. */
  predicate Missing(cell: string)
  {
    cell == ""
  }

  /** `os.path.join('data', name + '.xlsx')`. */
  function PathOf(name: string): string
  {
    "data/" + name + ".xlsx"
  }

  /** An open workbook; `rows` is its active sheet. */
  class Workbook {
    var rows: seq<seq<string>>

    /** `openpyxl.Workbook()`: a workbook whose sheet is empty. */
    constructor ()
      ensures rows == []
    {
      rows := [];
    }

    /** `sheet.append(row)`. */
    method Append(row: seq<string>)
      modifies this
      ensures rows == old(rows) + [row]
    {
      rows := rows + [row];
    }
  }

  /** The `data` directory: the durable content of every saved workbook, by
      path, and the number of saves performed so far. */
  class DataDir {
    var files: map<string, seq<seq<string>>>
    var saves: nat

    constructor (files: map<string, seq<seq<string>>>)
      ensures this.files == files && saves == 0
    {
      this.files := files;
      saves := 0;
    }

    /** `wb.save(path)`: the file now holds exactly the workbook's rows. */
    method Save(path: string, wb: Workbook)
      modifies this
      ensures files == old(files)[path := wb.rows]
      ensures saves == old(saves) + 1
    {
      files := files[path := wb.rows];
      saves := saves + 1;
    }

    /** `openpyxl.load_workbook(path)`: a fresh workbook with the saved rows. */
    method Load(path: string) returns (wb: Workbook)
      requires path in files
      ensures fresh(wb) && wb.rows == files[path]
    {
      wb := new Workbook();
      wb.rows := files[path];
    }

    /** Open-or-create: an existing file is loaded with all its rows; a
        missing one is created holding only the header row and saved at once. */
    method OpenOrCreate(path: string) returns (wb: Workbook)
      modifies this
      ensures fresh(wb)
      ensures wb.rows == if path in old(files) then old(files)[path] else [Header]
      ensures files == old(files)[path := wb.rows]
      ensures saves == old(saves) + (if path in old(files) then 0 else 1)
    {
      if path !in files {
        wb := new Workbook();
        wb.Append(Header);
        Save(path, wb);
      } else {
        wb := Load(path);
      }
    }
  }
}
