/** A saved sheet read back as a table, the way `pandas.read_excel` gives it
    to the analysis and the predictor: the first row names the columns and
    every later row is one record. A cell the fetcher left empty, and a cell
    past the end of a short row, is a missing value. */
module Frame {
  import opened Common
  import opened Sheet

  /** A sheet the analysis can read: it starts with the header the fetcher
      writes, so every column it asks for exists. */
  predicate Readable(rows: seq<seq<string>>)
  {
    rows != [] && rows[0] == Header
  }

  /** Cell `i` of a row, missing when the row is shorter. */
  function CellAt(row: seq<string>, i: nat): string
  {
    if i < |row| then row[i] else ""
  }

  function RecordOf(row: seq<string>): (r: DailyRecord)
    ensures forall i :: 0 <= i < 9 ==> Fields(r)[i] == CellAt(row, i)
  {
    DailyRecord(CellAt(row, 0), CellAt(row, 1), CellAt(row, 2), CellAt(row, 3), CellAt(row, 4),
                CellAt(row, 5), CellAt(row, 6), CellAt(row, 7), CellAt(row, 8))
  }

  /** The data rows of a sheet, one record per row after the header. */
  function ReadFrame(rows: seq<seq<string>>): (df: seq<DailyRecord>)
    requires Readable(rows)
    ensures |df| == |rows| - 1
    ensures forall i :: 0 <= i < |df| ==> df[i] == RecordOf(rows[i + 1])
  {
    seq(|rows| - 1, i requires 0 <= i < |rows| - 1 => RecordOf(rows[i + 1]))
  }

  /** Reading a full row back gives the record that was written. */
  lemma RecordOfFields(r: DailyRecord)
    ensures RecordOf(Fields(r)) == r
  {
  }

  /** Round trip: a sheet made of the header and the rows of some records
      reads back as exactly those records, in order. */
  lemma ReadWritten(recs: seq<DailyRecord>)
    ensures Readable([Header] + RowsOf(recs))
    ensures ReadFrame([Header] + RowsOf(recs)) == recs
  {
    ReadAppended([Header], recs);
    assert ReadFrame([Header]) == [];
  }

  /** Rows appended to a readable sheet read back, after the records already
      there, as exactly the records they were written from. */
  lemma ReadAppended(base: seq<seq<string>>, recs: seq<DailyRecord>)
    requires Readable(base)
    ensures Readable(base + RowsOf(recs))
    ensures ReadFrame(base + RowsOf(recs)) == ReadFrame(base) + recs
  {
    var rows := base + RowsOf(recs);
    assert rows[0] == base[0];
    var df, want := ReadFrame(rows), ReadFrame(base) + recs;
    forall i | 0 <= i < |want| ensures df[i] == want[i] {
      if i < |base| - 1 {
        assert rows[i + 1] == base[i + 1];
      } else {
        assert rows[i + 1] == Fields(recs[i - (|base| - 1)]);
        RecordOfFields(recs[i - (|base| - 1)]);
      }
    }
  }

  /** `dropna(subset=...)`, after any coercion of those columns: the rows
      `keep` accepts, in their order. */
  function DropIncomplete(df: seq<DailyRecord>, keep: DailyRecord -> bool): (kept: seq<DailyRecord>)
    ensures |kept| <= |df|
    ensures forall i :: 0 <= i < |kept| ==> keep(kept[i])
    ensures multiset(kept) <= multiset(df)
  {
    if df == [] then []
    else
      assert df == [df[0]] + df[1..];
      (if keep(df[0]) then [df[0]] else []) + DropIncomplete(df[1..], keep)
  }

  /** A row is kept exactly when it is in the table and complete. */
  lemma {:induction false} DropIncompleteMembers(df: seq<DailyRecord>, keep: DailyRecord -> bool, r: DailyRecord)
    ensures r in DropIncomplete(df, keep) <==> r in df && keep(r)
  {
    if df != [] {
      DropIncompleteMembers(df[1..], keep, r);
      assert r in df <==> r == df[0] || r in df[1..];
    }
  }

  /** A single row is kept exactly when it is complete. */
  lemma DropIncompleteSingle(r: DailyRecord, keep: DailyRecord -> bool)
    ensures DropIncomplete([r], keep) == if keep(r) then [r] else []
  {
    assert [r][1..] == [];
  }

  /** Rows are judged one at a time and stay in order: dropping from two
      runs of rows is dropping from each. With `DropIncompleteSingle` this
      fixes the result completely: every complete row is kept, as often as
      it occurs. */
  lemma {:induction false} DropIncompleteAppend(a: seq<DailyRecord>, b: seq<DailyRecord>, keep: DailyRecord -> bool)
    ensures DropIncomplete(a + b, keep) == DropIncomplete(a, keep) + DropIncomplete(b, keep)
  {
    if a == [] {
      assert a + b == b;
    } else {
      assert (a + b)[0] == a[0] && (a + b)[1..] == a[1..] + b;
      DropIncompleteAppend(a[1..], b, keep);
    }
  }

  /** A table whose rows are all complete loses nothing. */
  lemma {:induction false} DropIncompleteComplete(df: seq<DailyRecord>, keep: DailyRecord -> bool)
    requires forall i :: 0 <= i < |df| ==> keep(df[i])
    ensures DropIncomplete(df, keep) == df
  {
    if df != [] {
      DropIncompleteComplete(df[1..], keep);
    }
  }

  /** `pd.to_numeric(col, errors='coerce')` on one cell: `num` stands for
      pandas' number parser, and a missing cell stays missing. */
  function Numeric(cell: string, num: string -> Option<real>): (v: Option<real>)
    ensures Missing(cell) ==> v.None?
  {
    if Missing(cell) then None else num(cell)
  }
}
