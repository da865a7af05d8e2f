/** The aggregates behind the three analysis charts, computed from the
    records of a saved sheet:

    - the monthly temperature table keeps the days whose high and low both
      read as numbers and groups them by month;
    - the wind chart takes the force level (the last word) of every day and
      night wind cell, counts each (month, level) pair, divides by the
      number of distinct years and orders the levels by a digit-based key;
    - the weather chart counts each (month, weather) pair the same way and
      orders the labels: the known labels in a fixed order, then the others
      by code point.

    The plotting is not modelled; what is modelled is the data each chart is
    drawn from and the order of its legend. */
module Analyse {
  import opened Common
  import opened Sheet
  import opened Sorting
  import opened Frame

  /** A cell after reading: `None` when it is missing. */
  function Value(cell: string): (v: Option<string>)
    ensures v.None? <==> Missing(cell)
    ensures v.Some? ==> v.value == cell
  {
    if Missing(cell) then None else Some(cell)
  }

  // ---------------------------------------------------------------------
  // Wind force level

  /** `extract_wind_force`: the text after the last space, `None` when there
      is no space. */
  function WindForce(text: string): (w: Option<string>)
    ensures w.Some? <==> ' ' in text
    ensures w.Some? ==> ' ' !in w.value
  {
    if ' ' in text then
      var parts := Split(text, ' ');
      Some(parts[|parts| - 1])
    else None
  }

  /** There is a level exactly when the text has a space, and the level is
      the space-free tail of the text that follows its last space. */
  lemma WindForceLastWord(text: string)
    ensures WindForce(text).Some? <==> ' ' in text
    ensures WindForce(text).Some? ==>
      var w := WindForce(text).value;
      && ' ' !in w && |w| < |text|
      && text[|text| - |w| - 1] == ' ' && text[|text| - |w|..] == w
  {
    if ' ' in text {
      var parts := Split(text, ' ');
      var w := parts[|parts| - 1];
      SplitCount(text, ' ');
      assert multiset(text)[' '] > 0;
      JoinLast(parts, ' ');
      var head := Join(parts[..|parts| - 1], ' ');
      assert text == head + [' '] + w;
      assert text[|text| - |w| - 1] == ' ';
      assert text[|text| - |w|..] == w;
    }
  }

  /** The level of `prefix + " " + w` is `w` whenever `w` has no space. */
  lemma WindForceOf(prefix: string, w: string)
    requires ' ' !in w
    ensures WindForce(prefix + " " + w) == Some(w)
  {
    var text := prefix + " " + w;
    assert text[|prefix|] == ' ';
    WindForceLastWord(text);
    var v := WindForce(text).value;
    assert text[|text| - |w| - 1] == ' ';
    assert text[|text| - |w|..] == w;
  }

  /** A text that does not end in whitespace has a non-empty level, if any. */
  lemma WindForceNonEmpty(text: string)
    requires text == [] || !IsSpace(text[|text| - 1])
    ensures WindForce(text).Some? ==> WindForce(text).value != []
  {
    WindForceLastWord(text);
  }

  /** The level of a wind cell as the corrected aggregate reads it: a
      missing cell has no level, like a cell without a space. */
  function LevelOf(cell: string): (l: Option<string>)
    ensures Missing(cell) ==> l.None?
    ensures !Missing(cell) ==> l == WindForce(cell)
  {
    if Missing(cell) then None else WindForce(cell)
  }

  /** `df[col].apply(extract_wind_force)` as written: the call on a missing
      cell raises, because the membership test `' ' in text` needs a
      string. `None` stands for that exception. */
  function WindColumnAsWritten(cells: seq<string>): (r: Option<seq<Option<string>>>)
    ensures r.None? <==> exists i :: 0 <= i < |cells| && Missing(cells[i])
    ensures r.Some? ==> |r.value| == |cells| && forall i :: 0 <= i < |cells| ==> r.value[i] == WindForce(cells[i])
  {
    if cells == [] then Some([])
    else
      match WindColumnAsWritten(cells[1..])
      case None => None
      case Some(rest) => if Missing(cells[0]) then None else Some([WindForce(cells[0])] + rest)
  }

  /** The corrected column: one level per cell, missing cells dropped later
      with the cells that have no space. */
  function WindColumn(cells: seq<string>): (levels: seq<Option<string>>)
    ensures |levels| == |cells|
    ensures forall i :: 0 <= i < |cells| ==> levels[i] == LevelOf(cells[i])
  {
    seq(|cells|, i requires 0 <= i < |cells| => LevelOf(cells[i]))
  }

  /** Where the code as written does not raise, the corrected column agrees
      with it. */
  lemma WindColumnAgrees(cells: seq<string>)
    ensures WindColumnAsWritten(cells).Some? ==> WindColumnAsWritten(cells).value == WindColumn(cells)
  {
  }

  // ---------------------------------------------------------------------
  // Pooling and counting

  /** One occurrence: a month and a label (a wind level or a weather). */
  type Key = (string, string)

  /** `pd.concat` of the day and night columns, then `dropna` on the label;
      `groupby` further leaves out rows whose month is missing. */
  function Observed(col: seq<(string, Option<string>)>): (occ: seq<Key>)
    ensures |occ| <= |col|
    ensures forall j :: 0 <= j < |occ| ==> !Missing(occ[j].0)
  {
    if col == [] then []
    else
      (if col[0].1.Some? && !Missing(col[0].0) then [(col[0].0, col[0].1.value)] else [])
        + Observed(col[1..])
  }

  /** An occurrence is observed exactly when some entry of the column holds
      its month and its label. */
  lemma {:induction false} ObservedMembers(col: seq<(string, Option<string>)>, k: Key)
    ensures k in Observed(col) <==> !Missing(k.0) && exists i :: 0 <= i < |col| && col[i] == (k.0, Some(k.1))
  {
    if col != [] {
      ObservedMembers(col[1..], k);
      if !Missing(k.0) && col[0] != (k.0, Some(k.1)) {
        if k in Observed(col[1..]) {
          var j :| 0 <= j < |col[1..]| && col[1..][j] == (k.0, Some(k.1));
          assert col[j + 1] == (k.0, Some(k.1));
        }
        if exists i :: 0 <= i < |col| && col[i] == (k.0, Some(k.1)) {
          var i :| 0 <= i < |col| && col[i] == (k.0, Some(k.1));
          assert i != 0;
          assert col[1..][i - 1] == (k.0, Some(k.1));
        }
      }
    }
  }

  lemma {:induction false} ObservedAppend(a: seq<(string, Option<string>)>, b: seq<(string, Option<string>)>)
    ensures Observed(a + b) == Observed(a) + Observed(b)
  {
    if a == [] {
      assert a + b == b;
    } else {
      assert (a + b)[1..] == a[1..] + b;
      ObservedAppend(a[1..], b);
    }
  }

  /** Count of the entries that carry a label and a month. */
  function Labelled(col: seq<(string, Option<string>)>): nat
  {
    if col == [] then 0
    else (if col[0].1.Some? && !Missing(col[0].0) then 1 else 0) + Labelled(col[1..])
  }

  /** Nothing is dropped but the entries without a label or a month. */
  lemma {:induction false} ObservedLength(col: seq<(string, Option<string>)>)
    ensures |Observed(col)| == Labelled(col)
  {
    if col != [] {
      ObservedLength(col[1..]);
    }
  }

  /** The column of (month, label) pairs for one field of every record. */
  function Column(df: seq<DailyRecord>, field: DailyRecord -> Option<string>): (col: seq<(string, Option<string>)>)
    ensures |col| == |df|
    ensures forall i :: 0 <= i < |df| ==> col[i] == (df[i].month, field(df[i]))
  {
    seq(|df|, i requires 0 <= i < |df| => (df[i].month, field(df[i])))
  }

  /** Day and night weather, pooled. */
  function WeatherOccurrences(df: seq<DailyRecord>): (occ: seq<Key>)
    ensures |occ| <= 2 * |df|
    ensures forall j :: 0 <= j < |occ| ==> !Missing(occ[j].0)
  {
    Observed(Column(df, (r: DailyRecord) => Value(r.dayWeather)) + Column(df, (r: DailyRecord) => Value(r.nightWeather)))
  }

  /** Day and night wind levels, pooled (corrected reading of missing cells). */
  function WindOccurrences(df: seq<DailyRecord>): (occ: seq<Key>)
    ensures |occ| <= 2 * |df|
    ensures forall j :: 0 <= j < |occ| ==> !Missing(occ[j].0)
  {
    Observed(Column(df, (r: DailyRecord) => LevelOf(r.dayWind)) + Column(df, (r: DailyRecord) => LevelOf(r.nightWind)))
  }

  /** An occurrence is pooled from two columns exactly when its month is
      present and some record carries its label in one of them. */
  lemma PooledOccurrenceOf(df: seq<DailyRecord>, day: DailyRecord -> Option<string>,
                           night: DailyRecord -> Option<string>, k: Key)
    ensures k in Observed(Column(df, day) + Column(df, night)) <==>
      !Missing(k.0) && exists i :: 0 <= i < |df| && df[i].month == k.0 && (day(df[i]) == Some(k.1) || night(df[i]) == Some(k.1))
  {
    var both := Column(df, day) + Column(df, night);
    ObservedMembers(both, k);
    if !Missing(k.0) {
      if exists i :: 0 <= i < |both| && both[i] == (k.0, Some(k.1)) {
        var i :| 0 <= i < |both| && both[i] == (k.0, Some(k.1));
        if i >= |df| {
          assert Column(df, night)[i - |df|] == both[i];
        }
      }
      if exists i :: 0 <= i < |df| && df[i].month == k.0 && (day(df[i]) == Some(k.1) || night(df[i]) == Some(k.1)) {
        var i :| 0 <= i < |df| && df[i].month == k.0 && (day(df[i]) == Some(k.1) || night(df[i]) == Some(k.1));
        if day(df[i]) == Some(k.1) {
          assert both[i] == (k.0, Some(k.1));
        } else {
          assert both[|df| + i] == Column(df, night)[i] == (k.0, Some(k.1));
        }
      }
    }
  }

  /** A weather occurrence is a month and a weather that some record shows
      by day or by night. */
  lemma WeatherOccurrenceOf(df: seq<DailyRecord>, k: Key)
    ensures k in WeatherOccurrences(df) <==>
      k.1 != "" && k.0 != "" &&
      exists i :: 0 <= i < |df| && df[i].month == k.0 && (df[i].dayWeather == k.1 || df[i].nightWeather == k.1)
  {
    PooledOccurrenceOf(df, (r: DailyRecord) => Value(r.dayWeather), (r: DailyRecord) => Value(r.nightWeather), k);
  }

  /** A wind occurrence is a month and a level that some record's day or
      night wind cell gives. */
  lemma WindOccurrenceOf(df: seq<DailyRecord>, k: Key)
    ensures k in WindOccurrences(df) <==>
      k.0 != "" &&
      exists i :: 0 <= i < |df| && df[i].month == k.0 && (LevelOf(df[i].dayWind) == Some(k.1) || LevelOf(df[i].nightWind) == Some(k.1))
  {
    PooledOccurrenceOf(df, (r: DailyRecord) => LevelOf(r.dayWind), (r: DailyRecord) => LevelOf(r.nightWind), k);
  }

  /** `groupby([month, label]).size()`: how often each pair occurs. The
      table has a row for every pair that occurs and for no other. */
  method CountOccurrences(occ: seq<Key>) returns (counts: map<Key, nat>)
    ensures forall k :: k in counts <==> k in occ
    ensures forall k :: k in counts ==> counts[k] == multiset(occ)[k]
  {
    counts := map[];
    for i := 0 to |occ|
      invariant forall k :: k in counts <==> k in occ[..i]
      invariant forall k :: k in counts ==> counts[k] == multiset(occ[..i])[k]
    {
      var k := occ[i];
      assert occ[..i + 1] == occ[..i] + [k];
      if k in counts {
        counts := counts[k := counts[k] + 1];
      } else {
        counts := counts[k := 1];
      }
    }
    assert occ[..|occ|] == occ;
  }

  /** Sum of the counts of the given keys. */
  function SumOver(keys: seq<Key>, counts: map<Key, nat>): nat
    requires forall i :: 0 <= i < |keys| ==> keys[i] in counts
  {
    if keys == [] then 0 else SumOver(keys[..|keys| - 1], counts) + counts[keys[|keys| - 1]]
  }

  /** Sum of the multiplicities of the given keys. */
  function SumOf(keys: seq<Key>, m: multiset<Key>): nat
  {
    if keys == [] then 0 else SumOf(keys[..|keys| - 1], m) + m[keys[|keys| - 1]]
  }

  lemma {:induction false} SumOverIsSumOf(keys: seq<Key>, counts: map<Key, nat>, m: multiset<Key>)
    requires forall i :: 0 <= i < |keys| ==> keys[i] in counts && counts[keys[i]] == m[keys[i]]
    ensures SumOver(keys, counts) == SumOf(keys, m)
  {
    if keys != [] {
      SumOverIsSumOf(keys[..|keys| - 1], counts, m);
    }
  }

  /** Adding one element raises the sum by one when it is among the keys. */
  lemma {:induction false} SumOfAdd(keys: seq<Key>, m: multiset<Key>, x: Key)
    requires NoDuplicates(keys)
    ensures SumOf(keys, m + multiset{x}) == SumOf(keys, m) + (if x in keys then 1 else 0)
  {
    if keys != [] {
      var init := keys[..|keys| - 1];
      assert NoDuplicates(init);
      SumOfAdd(init, m, x);
      if x == keys[|keys| - 1] {
        assert x !in init;
      } else {
        assert x in keys <==> x in init;
      }
    }
  }

  /** Keys that do not occur add nothing. */
  lemma {:induction false} SumOfAbsent(keys: seq<Key>, m: multiset<Key>)
    requires forall i :: 0 <= i < |keys| ==> m[keys[i]] == 0
    ensures SumOf(keys, m) == 0
  {
    if keys != [] {
      SumOfAbsent(keys[..|keys| - 1], m);
    }
  }

  /** The counts of the distinct occurrences add up to the number of
      occurrences. */
  lemma {:induction false} CountsSum(occ: seq<Key>)
    ensures SumOf(Distinct(occ), multiset(occ)) == |occ|
  {
    if occ != [] {
      var init, x := occ[..|occ| - 1], occ[|occ| - 1];
      assert occ == init + [x];
      var p := Distinct(init);
      CountsSum(init);
      SumOfAdd(p, multiset(init), x);
      if x !in p {
        assert x !in init;
        assert Distinct(occ) == p + [x];
        assert (p + [x])[..|p|] == p;
      }
    }
  }

  /** The table that `CountOccurrences` fills sums, over its rows, to the
      number of pooled occurrences. */
  lemma CountTableSum(occ: seq<Key>, counts: map<Key, nat>)
    requires forall k :: k in counts <==> k in occ
    requires forall k :: k in counts ==> counts[k] == multiset(occ)[k]
    ensures forall i :: 0 <= i < |Distinct(occ)| ==> Distinct(occ)[i] in counts
    ensures SumOver(Distinct(occ), counts) == |occ|
  {
    SumOverIsSumOf(Distinct(occ), counts, multiset(occ));
    CountsSum(occ);
  }

  // ---------------------------------------------------------------------
  // Annualisation

  /** The year column without its missing cells. */
  function Years(df: seq<DailyRecord>): (ys: seq<string>)
    ensures |ys| <= |df|
    ensures forall y :: y in ys <==> y != "" && exists i :: 0 <= i < |df| && df[i].year == y
  {
    if df == [] then []
    else
      var rest := Years(df[1..]);
      assert forall i :: 1 <= i < |df| ==> df[i] == df[1..][i - 1];
      (if Missing(df[0].year) then [] else [df[0].year]) + rest
  }

  /** `df['年'].nunique()`: the number of distinct years present. */
  function YearsCount(df: seq<DailyRecord>): (n: nat)
    ensures n <= |df|
  {
    |Distinct(Years(df))|
  }

  /** A count divided by the number of years, as a real number. */
  function PerYear(count: nat, years: nat): (r: real)
    requires years > 0
    ensures r * years as real == count as real
  {
    count as real / years as real
  }

  /** With a single year present the annualised value is the raw count. */
  lemma OneYear(df: seq<DailyRecord>, y: string, count: nat)
    requires y != "" && df != []
    requires forall i :: 0 <= i < |df| ==> df[i].year == y
    ensures YearsCount(df) == 1 && PerYear(count, YearsCount(df)) == count as real
  {
    var ys := Years(df);
    var d := Distinct(ys);
    assert df[0].year == y;
    assert y in ys;
    var k :| 0 <= k < |ys| && ys[k] == y;
    assert y in d;
    assert forall i :: 0 <= i < |d| ==> d[i] == y;
    AllEqualMultiplicity(d, y);
    DistinctMultiplicity(d, y);
  }

  lemma {:induction false} AllEqualMultiplicity<T>(s: seq<T>, y: T)
    requires forall i :: 0 <= i < |s| ==> s[i] == y
    ensures multiset(s)[y] == |s|
  {
    if s != [] {
      AllEqualMultiplicity(s[1..], y);
      assert s == [s[0]] + s[1..];
    }
  }

  // ---------------------------------------------------------------------
  // Wind level order

  /** A wind level the sort key can be applied to. */
  type Level = s: string | s != [] witness "0"

  /** `get_wind_sort_key`: ten times the first character's digit, plus the
      third character's digit when there is one; 99 when the level does not
      start with a digit. */
  function WindSortKey(level: Level): (k: int)
    ensures 0 <= k <= 99
  {
    var third := if |level| > 2 then Some(level[2]) else None;
    if IsAsciiDigit(level[0]) && third.Some? && IsAsciiDigit(third.value) then
      DigitValue(level[0]) * 10 + DigitValue(third.value)
    else if IsAsciiDigit(level[0]) then DigitValue(level[0]) * 10
    else 99
  }

  /** The key's tens digit is the leading force; levels that do not start
      with a digit get the largest key. */
  lemma WindSortKeyMeaning(level: Level)
    ensures IsAsciiDigit(level[0]) ==> WindSortKey(level) / 10 == DigitValue(level[0])
    ensures !IsAsciiDigit(level[0]) ==> WindSortKey(level) == 99
  {
  }

  /** A smaller leading force always sorts first. */
  lemma WindSortKeyByForce(a: Level, b: Level)
    requires IsAsciiDigit(a[0]) && IsAsciiDigit(b[0]) && DigitValue(a[0]) < DigitValue(b[0])
    ensures WindSortKey(a) < WindSortKey(b)
  {
  }

  lemma WindSortKeyExamples()
    ensures WindSortKey("3级") == 30 && WindSortKey("3-4级") == 34 && WindSortKey("4级") == 40
    ensures WindSortKey("无持续风向") == 99
    ensures WindSortKey("10级") == 10 == WindSortKey("1级")
  {
  }

  /** The legend order of the wind chart: the distinct levels, by key, and
      in first-appearance order among equal keys. */
  function SortedWindLevels(levels: seq<Level>): (r: seq<Level>)
    ensures multiset(r) == multiset(Distinct(levels))
    ensures SortedByKey(r, WindSortKey)
    ensures forall k :: WithKey(r, WindSortKey, k) == WithKey(Distinct(levels), WindSortKey, k)
  {
    var d := Distinct(levels);
    forall k ensures WithKey(SortByKey(d, WindSortKey), WindSortKey, k) == WithKey(d, WindSortKey, k) {
      SortByKeyStable(d, WindSortKey, k);
    }
    SortByKey(d, WindSortKey)
  }

  /** Each level appears once in the legend, and every level does. */
  lemma SortedWindLevelsDistinct(levels: seq<Level>)
    ensures NoDuplicates(SortedWindLevels(levels))
    ensures forall l :: l in SortedWindLevels(levels) <==> l in levels
  {
    var r, d := SortedWindLevels(levels), Distinct(levels);
    PermutationDistinct(r, d);
    forall l ensures l in r <==> l in levels {
      assert l in r <==> l in multiset(r);
      assert l in d <==> l in multiset(d);
    }
  }

  /** A permutation of a duplicate-free sequence is duplicate-free. */
  lemma PermutationDistinct<T>(a: seq<T>, b: seq<T>)
    requires multiset(a) == multiset(b) && NoDuplicates(b)
    ensures NoDuplicates(a)
  {
    forall i, j | 0 <= i < j < |a| ensures a[i] != a[j] {
      if a[i] == a[j] {
        TwoOccurrences(a, i, j);
        DistinctMultiplicity(b, a[i]);
      }
    }
  }

  lemma TwoOccurrences<T>(a: seq<T>, i: nat, j: nat)
    requires i < j < |a| && a[i] == a[j]
    ensures multiset(a)[a[i]] >= 2
  {
    assert a == a[..j] + a[j..];
    assert a[i] in a[..j] && a[j] in a[j..];
    assert multiset(a) == multiset(a[..j]) + multiset(a[j..]);
  }

  /** An element of a duplicate-free sequence occurs in it at most once. */
  lemma {:induction false} DistinctMultiplicity<T>(s: seq<T>, x: T)
    requires NoDuplicates(s)
    ensures multiset(s)[x] <= 1
  {
    if s != [] {
      var init := s[..|s| - 1];
      assert s == init + [s[|s| - 1]];
      assert NoDuplicates(init);
      DistinctMultiplicity(init, x);
      if x == s[|s| - 1] {
        assert x !in init;
      }
    }
  }

  // ---------------------------------------------------------------------
  // Weather label order

  /** The fixed order of the known weather labels. */
  const ClearWeather: seq<string> := ["晴", "多云", "阴"]
  const RainWeather: seq<string> := [
    "小雨", "小到中雨", "中雨", "中到大雨", "大雨", "大到暴雨", "大暴雨",
    "阵雨", "雷阵雨"]
  const SnowWeather: seq<string> := [
    "雨夹雪", "阵雪", "小雪", "小到中雪", "中雪", "中到大雪", "大雪", "大到暴雪", "暴雪"]
  const CanonicalWeather: seq<string> := ClearWeather + RainWeather + SnowWeather

  /** `[w for w in s if w in within]`. */
  function Keep(s: seq<string>, within: seq<string>): (r: seq<string>)
    ensures |r| <= |s|
    ensures forall i :: 0 <= i < |r| ==> r[i] in within
  {
    if s == [] then [] else (if s[0] in within then [s[0]] else []) + Keep(s[1..], within)
  }

  /** `[w for w in s if w not in within]`. */
  function Drop(s: seq<string>, within: seq<string>): (r: seq<string>)
    ensures |r| <= |s|
    ensures forall i :: 0 <= i < |r| ==> r[i] !in within
  {
    if s == [] then [] else (if s[0] !in within then [s[0]] else []) + Drop(s[1..], within)
  }

  /** `Keep` keeps exactly the elements found in `within`. */
  lemma {:induction false} KeepMembers(s: seq<string>, within: seq<string>, w: string)
    ensures w in Keep(s, within) <==> w in s && w in within
  {
    if s != [] {
      KeepMembers(s[1..], within, w);
      assert w in s <==> w == s[0] || w in s[1..];
    }
  }

  /** The legend order of the weather chart. */
  function WeatherOrder(existing: seq<string>): (r: seq<string>)
    ensures forall w :: w in r <==> w in existing
  {
    OrderMembers(existing);
    Keep(CanonicalWeather, existing) + SortLex(Drop(existing, CanonicalWeather))
  }

  /** The known labels found and the others, sorted, are together exactly
      the labels found. */
  lemma OrderMembers(existing: seq<string>)
    ensures forall w :: w in Keep(CanonicalWeather, existing) + SortLex(Drop(existing, CanonicalWeather)) <==> w in existing
  {
    var known, rest := Keep(CanonicalWeather, existing), Drop(existing, CanonicalWeather);
    forall w ensures w in known + SortLex(rest) <==> w in existing {
      KeepMembers(CanonicalWeather, existing, w);
      DropMembers(existing, CanonicalWeather, w);
      assert w in SortLex(rest) <==> w in multiset(SortLex(rest));
      assert w in rest <==> w in multiset(rest);
    }
  }

  /** `Drop` keeps exactly the elements not found in `within`. */
  lemma {:induction false} DropMembers(s: seq<string>, within: seq<string>, w: string)
    ensures w in Drop(s, within) <==> w in s && w !in within
  {
    if s != [] {
      DropMembers(s[1..], within, w);
      assert w in s <==> w == s[0] || w in s[1..];
    }
  }

  /** The known labels come first and the others after them, the others in
      code-point order. */
  lemma WeatherOrderParts(existing: seq<string>)
    ensures var r, k := WeatherOrder(existing), |Keep(CanonicalWeather, existing)|;
      && k <= |r|
      && (forall i :: 0 <= i < |r| ==> (r[i] in CanonicalWeather <==> i < k))
      && SortedLex(r[k..])
  {
    var known, rest := Keep(CanonicalWeather, existing), SortLex(Drop(existing, CanonicalWeather));
    var r := known + rest;
    forall i | 0 <= i < |r| ensures r[i] in CanonicalWeather <==> i < |known| {
      if i < |known| {
        assert r[i] == known[i];
        KeepMembers(CanonicalWeather, existing, r[i]);
      } else {
        var drop := Drop(existing, CanonicalWeather);
        assert r[i] == rest[i - |known|];
        assert r[i] in multiset(drop);
        var m :| 0 <= m < |drop| && drop[m] == r[i];
      }
    }
    assert r[|known|..] == rest;
  }

  /** Any two of the other labels, not only neighbours, come in code-point
      order. */
  lemma WeatherOrderOthersSorted(existing: seq<string>, i: nat, j: nat)
    requires |Keep(CanonicalWeather, existing)| <= i <= j < |WeatherOrder(existing)|
    ensures LexLeq(WeatherOrder(existing)[i], WeatherOrder(existing)[j])
  {
    WeatherOrderParts(existing);
    SortedTail(WeatherOrder(existing), |Keep(CanonicalWeather, existing)|, i, j);
  }

  lemma SortedTail(r: seq<string>, k: nat, i: nat, j: nat)
    requires k <= i <= j < |r| && SortedLex(r[k..])
    ensures LexLeq(r[i], r[j])
  {
    var others := r[k..];
    SortedLexPairwise(others, i - k, j - k);
    assert others[i - k] == r[i] && others[j - k] == r[j];
  }

  /** The legend lists each distinct label exactly once. */
  lemma WeatherOrderPermutation(existing: seq<string>)
    requires NoDuplicates(existing)
    ensures multiset(WeatherOrder(existing)) == multiset(existing)
  {
    CanonicalDistinct();
    var known := Keep(CanonicalWeather, existing);
    KeepDistinct(CanonicalWeather, existing);
    KeepDistinct(existing, CanonicalWeather);
    forall w ensures w in known <==> w in Keep(existing, CanonicalWeather) {
      KeepMembers(CanonicalWeather, existing, w);
      KeepMembers(existing, CanonicalWeather, w);
    }
    SameElements(known, Keep(existing, CanonicalWeather));
    KeepDropSplit(existing, CanonicalWeather);
  }

  /** Position of a label's first occurrence. */
  function IndexIn(s: seq<string>, w: string): (k: nat)
    requires w in s
    ensures k < |s| && s[k] == w
  {
    if s[0] == w then 0 else 1 + IndexIn(s[1..], w)
  }

  /** The known labels come out in the fixed order of `CanonicalWeather`. */
  lemma WeatherOrderKnownInOrder(existing: seq<string>, i: nat, j: nat)
    requires i < j < |Keep(CanonicalWeather, existing)|
    ensures var r := WeatherOrder(existing);
      && r[i] in CanonicalWeather && r[j] in CanonicalWeather
      && IndexIn(CanonicalWeather, r[i]) < IndexIn(CanonicalWeather, r[j])
  {
    var known := Keep(CanonicalWeather, existing);
    assert WeatherOrder(existing)[i] == known[i] && WeatherOrder(existing)[j] == known[j];
    CanonicalDistinct();
    KeepInOrder(CanonicalWeather, existing, i, j);
  }

  lemma {:induction false} KeepInOrder(s: seq<string>, within: seq<string>, i: nat, j: nat)
    requires NoDuplicates(s) && i < j < |Keep(s, within)|
    ensures Keep(s, within)[i] in s && Keep(s, within)[j] in s
    ensures IndexIn(s, Keep(s, within)[i]) < IndexIn(s, Keep(s, within)[j])
  {
    var r, t := Keep(s, within), s[1..];
    var rt := Keep(t, within);
    KeepMembers(s, within, r[i]);
    KeepMembers(s, within, r[j]);
    assert NoDuplicates(t);
    if s[0] in within {
      assert r == [s[0]] + rt;
      KeepMembers(t, within, rt[j - 1]);
      IndexInTail(s, rt[j - 1]);
      if i > 0 {
        KeepMembers(t, within, rt[i - 1]);
        IndexInTail(s, rt[i - 1]);
        KeepInOrder(t, within, i - 1, j - 1);
      }
    } else {
      assert r == rt;
      KeepMembers(t, within, rt[i]);
      KeepMembers(t, within, rt[j]);
      IndexInTail(s, rt[i]);
      IndexInTail(s, rt[j]);
      KeepInOrder(t, within, i, j);
    }
  }

  /** A label in the tail of a duplicate-free sequence sits one further
      along in the whole. */
  lemma IndexInTail(s: seq<string>, w: string)
    requires NoDuplicates(s) && s != [] && w in s[1..]
    ensures w in s && w != s[0] && IndexIn(s, w) == 1 + IndexIn(s[1..], w)
  {
    var k :| 0 <= k < |s[1..]| && s[1..][k] == w;
    assert s[k + 1] == w;
  }

  lemma CanonicalDistinct()
    ensures NoDuplicates(CanonicalWeather)
  {
    assert NoDuplicates(ClearWeather);
    assert NoDuplicates(RainWeather);
    assert NoDuplicates(SnowWeather);
    Separated(ClearWeather, RainWeather, '雨');
    Separated(ClearWeather + RainWeather, SnowWeather, '雪');
    NoDuplicatesAppend(ClearWeather, RainWeather);
    NoDuplicatesAppend(ClearWeather + RainWeather, SnowWeather);
  }

  /** Labels without `c` differ from labels with it. */
  lemma Separated(a: seq<string>, b: seq<string>, c: char)
    requires forall i :: 0 <= i < |a| ==> c !in a[i]
    requires forall j :: 0 <= j < |b| ==> c in b[j]
    ensures forall i, j :: 0 <= i < |a| && 0 <= j < |b| ==> a[i] != b[j]
  {
  }

  lemma NoDuplicatesAppend<T>(a: seq<T>, b: seq<T>)
    requires NoDuplicates(a) && NoDuplicates(b)
    requires forall i, j :: 0 <= i < |a| && 0 <= j < |b| ==> a[i] != b[j]
    ensures NoDuplicates(a + b)
  {
    forall i, j | 0 <= i < j < |a + b| ensures (a + b)[i] != (a + b)[j] {
      if j < |a| {
      } else if i >= |a| {
        assert (a + b)[i] == b[i - |a|] && (a + b)[j] == b[j - |a|];
      } else {
        assert (a + b)[j] == b[j - |a|];
      }
    }
  }

  lemma {:induction false} KeepDistinct(s: seq<string>, within: seq<string>)
    requires NoDuplicates(s)
    ensures NoDuplicates(Keep(s, within))
  {
    if s != [] {
      assert NoDuplicates(s[1..]);
      KeepDistinct(s[1..], within);
      assert s[0] !in s[1..];
      KeepMembers(s[1..], within, s[0]);
    }
  }

  /** Keeping and dropping the same labels splits a sequence in two. */
  lemma {:induction false} KeepDropSplit(s: seq<string>, within: seq<string>)
    ensures multiset(Keep(s, within)) + multiset(Drop(s, within)) == multiset(s)
  {
    if s != [] {
      var x, tail := s[0], s[1..];
      KeepDropSplit(tail, within);
      assert s == [x] + tail;
      var k, d := Keep(tail, within), Drop(tail, within);
      if x in within {
        assert Keep(s, within) == [x] + k && Drop(s, within) == d;
        assert multiset(Keep(s, within)) == multiset{x} + multiset(k);
      } else {
        assert Keep(s, within) == k && Drop(s, within) == [x] + d;
        assert multiset(Drop(s, within)) == multiset{x} + multiset(d);
      }
      assert multiset(s) == multiset{x} + multiset(tail);
    }
  }

  /** Two duplicate-free sequences with the same elements are permutations
      of each other. */
  lemma SameElements(a: seq<string>, b: seq<string>)
    requires NoDuplicates(a) && NoDuplicates(b)
    requires forall w :: w in a <==> w in b
    ensures multiset(a) == multiset(b)
  {
    forall w ensures multiset(a)[w] == multiset(b)[w] {
      DistinctMultiplicity(a, w);
      DistinctMultiplicity(b, w);
      assert w in a <==> w in multiset(a);
      assert w in b <==> w in multiset(b);
    }
  }

  // ---------------------------------------------------------------------
  // Monthly temperature

  /** What `dropna(subset=[high, low])` keeps after both columns are
      coerced: a record whose high and low both read as numbers. */
  predicate HasTemperatures(r: DailyRecord, num: string -> Option<real>)
  {
    Numeric(r.high, num).Some? && Numeric(r.low, num).Some?
  }

  /** The months of the temperature table: `groupby('月')` on the kept
      records, a missing month forming no group. */
  function TemperatureMonths(df: seq<DailyRecord>, num: string -> Option<real>): (months: set<string>)
    ensures forall m :: m in months ==> !Missing(m)
  {
    set r | r in DropIncomplete(df, (r: DailyRecord) => HasTemperatures(r, num)) && !Missing(r.month) :: r.month
  }

  /** A month is in the table exactly when at least one of its days has both
      temperatures. */
  lemma TemperatureMonthsIff(df: seq<DailyRecord>, num: string -> Option<real>, m: string)
    ensures m in TemperatureMonths(df, num) <==>
      m != "" && exists i :: 0 <= i < |df| && df[i].month == m && HasTemperatures(df[i], num)
  {
    if m in TemperatureMonths(df, num) {
      var r :| r in DropIncomplete(df, (r: DailyRecord) => HasTemperatures(r, num)) && !Missing(r.month) && r.month == m;
      DropIncompleteMembers(df, (r: DailyRecord) => HasTemperatures(r, num), r);
    }
    if m != "" && exists i :: 0 <= i < |df| && df[i].month == m && HasTemperatures(df[i], num) {
      var i :| 0 <= i < |df| && df[i].month == m && HasTemperatures(df[i], num);
      DropIncompleteMembers(df, (r: DailyRecord) => HasTemperatures(r, num), df[i]);
    }
  }
}
