/** The predictor's request handling: which month lists it accepts, whether
    it compares with recorded data, the title of its chart, and the rows it
    trains on. The regression itself is not modelled. */
module Train {
  import opened Common
  import opened Sheet
  import opened Sorting
  import opened Frame

  function Identity(x: int): int
  {
    x
  }

  /** `sorted(month) == month` together with the bounds on the first and
      last element; an empty list is rejected first. */
  predicate ValidMonths(month: seq<int>)
  {
    month != [] && SortByKey(month, Identity) == month && month[0] >= 1 && month[|month| - 1] <= 12
  }

  /** Accepted lists are exactly the non-empty non-decreasing lists of
      months 1 to 12. Repeated months and gaps are accepted: nothing asks
      for consecutive months. */
  lemma ValidMonthsIff(month: seq<int>)
    ensures ValidMonths(month) <==>
      && month != []
      && (forall i, j :: 0 <= i < j < |month| ==> month[i] <= month[j])
      && (forall i :: 0 <= i < |month| ==> 1 <= month[i] <= 12)
  {
    if ValidMonths(month) {
      ValidMonthsOrdered(month);
    }
    if month != [] && forall i, j :: 0 <= i < j < |month| ==> month[i] <= month[j] {
      SortByKeyFixesSorted(month, Identity);
      assert SortedByKey(month, Identity);
    }
  }

  /** An accepted list is in order, so every month lies between the first
      and the last one. */
  lemma ValidMonthsOrdered(month: seq<int>)
    requires ValidMonths(month)
    ensures forall i, j :: 0 <= i < j < |month| ==> month[i] <= month[j]
    ensures forall i :: 0 <= i < |month| ==> 1 <= month[i] <= 12
  {
    SortByKeyFixesSorted(month, Identity);
    assert SortedByKey(month, Identity);
    forall i, j | 0 <= i < j < |month| ensures month[i] <= month[j] {
      assert Identity(month[i]) <= Identity(month[j]);
    }
    forall i | 0 <= i < |month| ensures month[0] <= month[i] <= month[|month| - 1] {
      assert Identity(month[0]) <= Identity(month[i]) || i == 0;
      assert Identity(month[i]) <= Identity(month[|month| - 1]) || i == |month| - 1;
    }
  }

  /** Any two months in order are accepted, a gap or a repeat included. */
  lemma TwoMonthsAccepted(month: seq<int>)
    requires |month| == 2 && 1 <= month[0] <= month[1] <= 12
    ensures ValidMonths(month)
  {
    assert SortedByKey(month, Identity);
    SortByKeyFixesSorted(month, Identity);
  }

  /** A gap and a repeated month are both accepted. */
  lemma ValidMonthsAccepted()
    ensures ValidMonths([1, 3]) && ValidMonths([5, 5])
  {
    TwoMonthsAccepted([1, 3]);
    TwoMonthsAccepted([5, 5]);
  }

  /** A descending list and a month 0 are not. */
  lemma ValidMonthsRejected()
    ensures !ValidMonths([3, 1]) && !ValidMonths([0, 1])
  {
    ValidMonthsIff([3, 1]);
    ValidMonthsIff([0, 1]);
  }

  /** Whether the prediction is compared with recorded data: a data set was
      named and its file exists among `files`. */
  function Compare(name: Option<string>, files: set<string>): (compare: bool)
    ensures compare ==> name.Some?
    ensures name.Some? ==> (compare <==> PathOf(name.value) in files)
  {
    match name
    case None => false
    case Some(n) => PathOf(n) in files
  }

  /** What follows the months in the title. */
  function Caption(compare: bool): (c: string)
    ensures c != [] && c[0] == '月'
  {
    "月平均最高温度：" + if compare then "预测 vs 真实" else "预测"
  }

  /** The caption starts with 月 and says which of the two charts it is. */
  lemma CaptionShape(c: bool, d: bool)
    ensures Caption(c) != [] && Caption(c)[0] == '月'
    ensures Caption(c) == Caption(d) ==> c == d
  {
    assert |Caption(true)| == 16 && |Caption(false)| == 10;
  }

  /** The part of the title after the first month's number: it starts with
      '月' for one month and with '-' for several. */
  function TitleTail(month: seq<int>, compare: bool): (tail: string)
    requires ValidMonths(month)
    ensures tail != [] && tail[0] == if |month| == 1 then '月' else '-'
  {
    if |month| == 1 then Caption(compare)
    else "-" + (NatToString(month[|month| - 1] as nat) + Caption(compare))
  }

  /** The chart title: the year 2025, the month or the first and last month,
      and whether the real values are shown. */
  function Title(month: seq<int>, compare: bool): (title: string)
    requires ValidMonths(month)
    ensures |title| > 6 && title[..5] == "2025年" && IsAsciiDigit(title[5])
  {
    "2025年" + (NatToString(month[0] as nat) + TitleTail(month, compare))
  }

  /** The title identifies the request it was drawn for: the first month,
      the last month, whether one month or several were asked for, and
      whether real values are compared. */
  lemma TitleIdentifies(a: seq<int>, c: bool, b: seq<int>, d: bool)
    requires ValidMonths(a) && ValidMonths(b) && Title(a, c) == Title(b, d)
    ensures a[0] == b[0] && a[|a| - 1] == b[|b| - 1]
    ensures (|a| == 1 <==> |b| == 1) && c == d
  {
    var prefix := "2025年";
    var x, y := NatToString(a[0] as nat) + TitleTail(a, c), NatToString(b[0] as nat) + TitleTail(b, d);
    assert x == (prefix + x)[|prefix|..];
    assert y == (prefix + y)[|prefix|..];
    NumeralPrefix(a[0] as nat, b[0] as nat, TitleTail(a, c), TitleTail(b, d));
    TailIdentifies(a, c, b, d);
  }

  /** The part after the first month tells one month from several and
      whether real values are compared, and for several months gives the
      last one. */
  lemma TailIdentifies(a: seq<int>, c: bool, b: seq<int>, d: bool)
    requires ValidMonths(a) && ValidMonths(b) && TitleTail(a, c) == TitleTail(b, d)
    ensures (|a| == 1 <==> |b| == 1) && c == d
    ensures |a| > 1 ==> a[|a| - 1] == b[|b| - 1]
  {
    CaptionShape(c, d);
    CaptionShape(d, c);
    if |a| > 1 && |b| > 1 {
      var p, q := NatToString(a[|a| - 1] as nat) + Caption(c), NatToString(b[|b| - 1] as nat) + Caption(d);
      assert p == TitleTail(a, c)[1..] && q == TitleTail(b, d)[1..];
      NumeralPrefix(a[|a| - 1] as nat, b[|b| - 1] as nat, Caption(c), Caption(d));
    }
  }

  /** Where `predict` saves its chart: a file named after the title. */
  function ChartPath(title: string): (path: string)
    ensures |path| == |title| + 12
    ensures path[..8] == "results/" && path[8..|path| - 4] == title && path[|path| - 4..] == ".png"
  {
    "results/" + title + ".png"
  }

  /** Two predictions save to the same chart file only when they were asked
      for the same first and last month, both for one month or both for
      several, and both with or both without real values; any other
      prediction's chart is kept. */
  lemma ChartPathIdentifies(a: seq<int>, c: bool, b: seq<int>, d: bool)
    requires ValidMonths(a) && ValidMonths(b)
    requires ChartPath(Title(a, c)) == ChartPath(Title(b, d))
    ensures a[0] == b[0] && a[|a| - 1] == b[|b| - 1]
    ensures (|a| == 1 <==> |b| == 1) && c == d
  {
    ChartPathInjective(Title(a, c), Title(b, d));
    TitleIdentifies(a, c, b, d);
  }

  /** Different titles are saved to different files. */
  lemma ChartPathInjective(s: string, t: string)
    requires ChartPath(s) == ChartPath(t)
    ensures s == t
  {
    var dir, ext := "results/", ".png";
    assert ChartPath(s) == dir + (s + ext) && ChartPath(t) == dir + (t + ext);
    assert s + ext == ChartPath(s)[|dir|..];
    assert t + ext == ChartPath(t)[|dir|..];
    assert s == (s + ext)[..|s|];
    assert t == (t + ext)[..|t|];
  }

  /** A numeral followed by a non-digit is read off unambiguously. */
  lemma NumeralPrefix(m: nat, n: nat, x: string, y: string)
    requires x != [] && y != [] && !IsAsciiDigit(x[0]) && !IsAsciiDigit(y[0])
    requires NatToString(m) + x == NatToString(n) + y
    ensures m == n && x == y
  {
    var s, t := NatToString(m), NatToString(n);
    DigitRunOf(s, x);
    DigitRunOf(t, y);
    assert s == (s + x)[..|s|];
    assert t == (t + y)[..|t|];
    assert x == (s + x)[|s|..];
    assert y == (t + y)[|t|..];
  }

  /** The number of digits a text starts with. */
  function DigitRun(u: string): nat
  {
    if u != [] && IsAsciiDigit(u[0]) then 1 + DigitRun(u[1..]) else 0
  }

  lemma {:induction false} DigitRunOf(s: string, x: string)
    requires forall i :: 0 <= i < |s| ==> IsAsciiDigit(s[i])
    requires x != [] && !IsAsciiDigit(x[0])
    ensures DigitRun(s + x) == |s|
  {
    if s == [] {
      assert s + x == x;
    } else {
      assert (s + x)[1..] == s[1..] + x;
      DigitRunOf(s[1..], x);
    }
  }

  /** What `predict` settles before it predicts: an invalid month list ends
      the call with nothing; otherwise whether to compare and the title. */
  function Predict(month: seq<int>, name: Option<string>, files: set<string>): (r: Option<(bool, string)>)
    ensures r.None? <==> !ValidMonths(month)
    ensures r.Some? ==> r.value.0 == Compare(name, files) && r.value.1 == Title(month, r.value.0)
  {
    if !ValidMonths(month) then None
    else
      var compare := Compare(name, files);
      Some((compare, Title(month, compare)))
  }

  /** What training needs of a row: its year, its month and a numeric high. */
  predicate Trainable(r: DailyRecord, num: string -> Option<real>)
  {
    !Missing(r.year) && !Missing(r.month) && Numeric(r.high, num).Some?
  }

  /** What the comparison needs of a row: its month and a numeric high; the
      year may be missing. */
  predicate Comparable(r: DailyRecord, num: string -> Option<real>)
  {
    !Missing(r.month) && Numeric(r.high, num).Some?
  }

  /** `train_model`'s input: nothing when the data file does not exist,
      otherwise the complete rows of its sheet. */
  function TrainRows(name: string, files: map<string, seq<seq<string>>>, num: string -> Option<real>)
    : (r: Option<seq<DailyRecord>>)
    requires PathOf(name) in files ==> Readable(files[PathOf(name)])
    ensures r.None? <==> PathOf(name) !in files
  {
    var path := PathOf(name);
    if path !in files then None
    else Some(DropIncomplete(ReadFrame(files[path]), (r: DailyRecord) => Trainable(r, num)))
  }

  /** Every row trained on comes from the named file and has what training
      needs, and every such row is trained on. */
  lemma TrainRowsFromFile(name: string, files: map<string, seq<seq<string>>>, num: string -> Option<real>, r: DailyRecord)
    requires PathOf(name) in files && Readable(files[PathOf(name)])
    ensures r in TrainRows(name, files, num).value <==> r in ReadFrame(files[PathOf(name)]) && Trainable(r, num)
  {
    DropIncompleteMembers(ReadFrame(files[PathOf(name)]), (r: DailyRecord) => Trainable(r, num), r);
  }

  /** The recorded rows a prediction is compared with: none when no
      comparison is made, otherwise the complete rows of the named sheet. */
  function CompareRows(name: Option<string>, files: map<string, seq<seq<string>>>, num: string -> Option<real>)
    : (r: seq<DailyRecord>)
    requires name.Some? && PathOf(name.value) in files ==> Readable(files[PathOf(name.value)])
    ensures !Compare(name, files.Keys) ==> r == []
  {
    if !Compare(name, files.Keys) then []
    else DropIncomplete(ReadFrame(files[PathOf(name.value)]), (r: DailyRecord) => Comparable(r, num))
  }

  /** A compared row comes from the named file and has a month and a numeric
      high, and every such row is compared. */
  lemma CompareRowsFromFile(name: string, files: map<string, seq<seq<string>>>, num: string -> Option<real>, r: DailyRecord)
    requires PathOf(name) in files && Readable(files[PathOf(name)])
    ensures r in CompareRows(Some(name), files, num) <==> r in ReadFrame(files[PathOf(name)]) && Comparable(r, num)
  {
    DropIncompleteMembers(ReadFrame(files[PathOf(name)]), (r: DailyRecord) => Comparable(r, num), r);
  }
}
