/** The date cell of a table row is read with
    `re.match('(.*)年(.*)月(.*)日', text)`: the pattern is anchored at the
    start of the text but not at its end, `.` matches every character except
    a newline, and the three groups are greedy. Python's backtracking engine
    tries the longest first group first, then the longest second group, then
    the longest third; the first assignment that fits is the match.

    `MatchDate` computes that assignment directly: the day group ends at the
    last 日 of the first line, the month group at the last 月 before it and
    the year group at the last 年 before that. The lemmas show it is a match
    (the contract of `MatchDate`) and that no other match is tried before it, which also
    means there is a match whenever some assignment fits
    (`MatchDateGreedy`). */
module DateCell {
  import opened Common

  datatype DateGroups = DateGroups(year: string, month: string, day: string)

  /** The text the groups and literals spell out, from the start of the cell. */
  function Spelled(g: DateGroups): string
  {
    g.year + "年" + g.month + "月" + g.day + "日"
  }

  /** `g` is one way for the pattern to match at the start of `t`. */
  predicate MatchesAt(t: string, g: DateGroups)
  {
    && '\n' !in g.year && '\n' !in g.month && '\n' !in g.day
    && |Spelled(g)| <= |t| && t[..|Spelled(g)|] == Spelled(g)
  }

  /** Backtracking order: `g` is tried no later than `h`. */
  predicate TriedBefore(g: DateGroups, h: DateGroups)
  {
    || |h.year| < |g.year|
    || (|h.year| == |g.year| && |h.month| < |g.month|)
    || (|h.year| == |g.year| && |h.month| == |g.month| && |h.day| <= |g.day|)
  }

  /** The text before the first newline. */
  function FirstLine(t: string): (l: string)
    ensures |l| <= |t|
  {
    if t == [] || t[0] == '\n' then [] else [t[0]] + FirstLine(t[1..])
  }

  /** The first line is the prefix of the text up to, and without, its
      first newline. */
  lemma {:induction false} FirstLineSpec(t: string)
    ensures var l := FirstLine(t);
      && l == t[..|l|]
      && (forall i :: 0 <= i < |l| ==> l[i] != '\n')
      && (|l| < |t| ==> t[|l|] == '\n')
  {
    if t != [] && t[0] != '\n' {
      FirstLineSpec(t[1..]);
    }
  }

  /** Python's `s.rfind(c)`, with `None` for -1. */
  function LastIndexOf(s: string, c: char): (r: Option<nat>)
    ensures r.Some? ==> r.value < |s|
  {
    if s == [] then None
    else if s[|s| - 1] == c then Some(|s| - 1)
    else LastIndexOf(s[..|s| - 1], c)
  }

  /** `rfind` finds `c` exactly when it occurs, and then its last
      occurrence. */
  lemma {:induction false} LastIndexOfSpec(s: string, c: char)
    ensures var r := LastIndexOf(s, c);
      && (r.None? <==> c !in s)
      && (r.Some? ==> s[r.value] == c && forall j :: r.value < j < |s| ==> s[j] != c)
  {
    if s != [] && s[|s| - 1] != c {
      var init := s[..|s| - 1];
      LastIndexOfSpec(init, c);
      assert forall j :: 0 <= j < |init| ==> init[j] == s[j];
      assert s == init + [s[|s| - 1]];
    }
  }

  /** `re.match('(.*)年(.*)月(.*)日', t)`, with its three groups: only the
      first line can take part in a match, and what is returned is a match. */
  function MatchDate(t: string): (r: Option<DateGroups>)
    ensures r.Some? ==> MatchesAt(t, r.value)
  {
    FirstLineSpec(t);
    MatchLineSpells(FirstLine(t));
    var r := MatchLine(FirstLine(t));
    if r.Some? then GroupsMatch(FirstLine(t), t, r.value); r else r
  }

  /** The match within one line, found from its last 日 backwards. */
  function MatchLine(line: string): Option<DateGroups>
  {
    match LastIndexOf(line, '日')
    case None => None
    case Some(d) =>
      match LastIndexOf(line[..d], '月')
      case None => None
      case Some(m) =>
        match LastIndexOf(line[..m], '年')
        case None => None
        case Some(y) => Some(DateGroups(line[..y], line[y + 1..m], line[m + 1..d]))
  }

  /** The groups found in a line, with the three literals, spell a prefix
      of the line. */
  lemma MatchLineSpells(line: string)
    ensures var r := MatchLine(line);
      r.Some? ==> |Spelled(r.value)| <= |line| && line[..|Spelled(r.value)|] == Spelled(r.value)
  {
    if MatchLine(line).Some? {
      var d := LastIndexOf(line, '日').value;
      LastIndexOfSpec(line, '日');
      var m := LastIndexOf(line[..d], '月').value;
      LastIndexOfSpec(line[..d], '月');
      var y := LastIndexOf(line[..m], '年').value;
      LastIndexOfSpec(line[..m], '年');
      assert line[..d][m] == line[m];
      SpelledPrefix(line, y, m, d);
    }
  }

  lemma SpelledPrefix(line: string, y: nat, m: nat, d: nat)
    requires y < m < d < |line|
    requires line[y] == '年' && line[m] == '月' && line[d] == '日'
    ensures Spelled(DateGroups(line[..y], line[y + 1..m], line[m + 1..d])) == line[..d + 1]
  {
    var g := DateGroups(line[..y], line[y + 1..m], line[m + 1..d]);
    var sp := Spelled(g);
    assert |sp| == d + 1;
    forall i | 0 <= i <= d ensures sp[i] == line[i] {
      if i < y {
        assert sp[i] == g.year[i];
      } else if y < i < m {
        assert sp[i] == g.month[i - y - 1];
      } else if m < i < d {
        assert sp[i] == g.day[i - m - 1];
      }
    }
  }

  /** Groups that spell a prefix of the first line match the text. */
  lemma GroupsMatch(line: string, t: string, g: DateGroups)
    requires |line| <= |t| && line == t[..|line|]
    requires forall i :: 0 <= i < |line| ==> line[i] != '\n'
    requires |Spelled(g)| <= |line| && line[..|Spelled(g)|] == Spelled(g)
    ensures MatchesAt(t, g)
  {
    var sp := Spelled(g);
    assert t[..|sp|] == line[..|sp|];
    assert forall i :: 0 <= i < |g.year| ==> g.year[i] == sp[i];
    assert forall i :: 0 <= i < |g.month| ==> g.month[i] == sp[|g.year| + 1 + i];
    assert forall i :: 0 <= i < |g.day| ==> g.day[i] == sp[|g.year| + |g.month| + 2 + i];
  }

  /** None of the pattern's three literal characters, nor a newline. */
  predicate Unmarked(s: string)
  {
    forall i :: 0 <= i < |s| ==> s[i] != '年' && s[i] != '月' && s[i] != '日' && s[i] != '\n'
  }

  /** Round trip: groups free of the literal characters are recovered
      exactly from the date they spell, whatever follows on other lines or
      without a further 日. */
  lemma MatchDateSpelled(g: DateGroups, rest: string)
    requires Unmarked(g.year) && Unmarked(g.month) && Unmarked(g.day)
    requires '\n' !in rest && '日' !in rest
    ensures MatchDate(Spelled(g) + rest) == Some(g)
  {
    var t := Spelled(g) + rest;
    var y := |g.year|;
    var m := y + 1 + |g.month|;
    var d := m + 1 + |g.day|;
    SpelledMarks(g, rest);
    MatchDateAt(t, y, m, d);
    assert DateGroups(t[..y], t[y + 1..m], t[m + 1..d]) == g;
  }

  /** Where the literal characters sit in a spelled date. */
  lemma SpelledMarks(g: DateGroups, rest: string)
    requires Unmarked(g.year) && Unmarked(g.month) && Unmarked(g.day)
    requires '\n' !in rest && '日' !in rest
    ensures var t, y := Spelled(g) + rest, |g.year|;
      var m := y + 1 + |g.month|;
      var d := m + 1 + |g.day|;
      && d < |t| && t[y] == '年' && t[m] == '月' && t[d] == '日'
      && t[..y] == g.year && t[y + 1..m] == g.month && t[m + 1..d] == g.day
      && (forall i :: 0 <= i < |t| ==> t[i] != '\n')
      && (forall i :: 0 <= i < |t| && i != d ==> t[i] != '日')
      && (forall i :: 0 <= i < d && i != m ==> t[i] != '月')
      && (forall i :: 0 <= i < m && i != y ==> t[i] != '年')
  {
    var t := Spelled(g) + rest;
    var y := |g.year|;
    var m := y + 1 + |g.month|;
    var d := m + 1 + |g.day|;
    assert t[..d + 1] == g.year + "年" + g.month + "月" + g.day + "日";
    forall i | 0 <= i < |t|
      ensures t[i] != '\n'
      ensures i != d ==> t[i] != '日'
      ensures i < d && i != m ==> t[i] != '月'
      ensures i < m && i != y ==> t[i] != '年'
    {
      if i < y {
        assert t[i] == g.year[i];
      } else if y < i < m {
        assert t[i] == g.month[i - y - 1];
      } else if m < i < d {
        assert t[i] == g.day[i - m - 1];
      } else if d < i {
        assert t[i] == rest[i - d - 1];
      }
    }
  }

  /** A one-line text whose last 日 is at `d`, whose last 月 before it is at
      `m` and whose last 年 before that is at `y` matches with the groups
      between them. */
  lemma MatchDateAt(t: string, y: nat, m: nat, d: nat)
    requires y < m < d < |t|
    requires t[y] == '年' && t[m] == '月' && t[d] == '日'
    requires forall i :: 0 <= i < |t| ==> t[i] != '\n'
    requires forall i :: 0 <= i < |t| && i != d ==> t[i] != '日'
    requires forall i :: 0 <= i < d && i != m ==> t[i] != '月'
    requires forall i :: 0 <= i < m && i != y ==> t[i] != '年'
    ensures MatchDate(t) == Some(DateGroups(t[..y], t[y + 1..m], t[m + 1..d]))
  {
    FirstLineSpec(t);
    assert FirstLine(t) == t;
    LastAt(t, '日', d);
    assert t[..d][m] == '月';
    LastAt(t[..d], '月', m);
    assert t[..m][y] == '年';
    LastAt(t[..m], '年', y);
    MatchLineOf(t, y, m, d);
  }

  /** `rfind` gives `k` when `c` is at `k` and nowhere after it. */
  lemma LastAt(s: string, c: char, k: nat)
    requires k < |s| && s[k] == c && forall j :: k < j < |s| ==> s[j] != c
    ensures LastIndexOf(s, c) == Some(k)
  {
    LastIndexOfSpec(s, c);
  }

  lemma MatchLineOf(line: string, y: nat, m: nat, d: nat)
    requires y < m < d <= |line|
    requires LastIndexOf(line, '日') == Some(d)
    requires LastIndexOf(line[..d], '月') == Some(m)
    requires LastIndexOf(line[..m], '年') == Some(y)
    ensures MatchLine(line) == Some(DateGroups(line[..y], line[y + 1..m], line[m + 1..d]))
  {
  }

  /** Any assignment of the groups that fits is tried no earlier than the one
      `MatchDate` returns; in particular `MatchDate` finds a match whenever
      the text admits one, so `None` means no assignment fits. */
  lemma MatchDateGreedy(t: string, h: DateGroups)
    requires MatchesAt(t, h)
    ensures MatchDate(t).Some? && TriedBefore(MatchDate(t).value, h)
  {
    var line := FirstLine(t);
    FirstLineSpec(t);
    var sp := Spelled(h);
    var y', m' := |h.year|, |h.year| + 1 + |h.month|;
    var d' := m' + 1 + |h.day|;
    SpelledShape(h);
    assert d' < |line|;
    assert line[y'] == '年' && line[m'] == '月' && line[d'] == '日' by {
      assert line[y'] == t[y'] == sp[y'];
      assert line[m'] == t[m'] == sp[m'];
      assert line[d'] == t[d'] == sp[d'];
    }
    var y, m, d := LineGreedy(line, y', m', d');
    assert MatchDate(t) == MatchLine(line);
  }

  /** The literals found from the last 日 backwards sit no earlier than any
      other 年, 月, 日 in that order. */
  lemma LineGreedy(line: string, y': nat, m': nat, d': nat) returns (y: nat, m: nat, d: nat)
    requires y' < m' < d' < |line|
    requires line[y'] == '年' && line[m'] == '月' && line[d'] == '日'
    ensures y' <= y && m' <= m && d' <= d && y < m < d < |line|
    ensures MatchLine(line) == Some(DateGroups(line[..y], line[y + 1..m], line[m + 1..d]))
  {
    LastIndexOfSpec(line, '日');
    d := LastIndexOf(line, '日').value;
    assert line[..d][m'] == '月';
    LastIndexOfSpec(line[..d], '月');
    m := LastIndexOf(line[..d], '月').value;
    assert line[..m][y'] == '年';
    LastIndexOfSpec(line[..m], '年');
    y := LastIndexOf(line[..m], '年').value;
    MatchLineOf(line, y, m, d);
  }

  /** Where the literal characters of a spelled date sit, and that a date
      spelled from newline-free groups has no newline. */
  lemma SpelledShape(h: DateGroups)
    requires '\n' !in h.year && '\n' !in h.month && '\n' !in h.day
    ensures var sp, y := Spelled(h), |h.year|;
      var m := y + 1 + |h.month|;
      var d := m + 1 + |h.day|;
      && |sp| == d + 1 && sp[y] == '年' && sp[m] == '月' && sp[d] == '日'
      && forall i :: 0 <= i < |sp| ==> sp[i] != '\n'
  {
    var sp := Spelled(h);
    var y', m' := |h.year|, |h.year| + 1 + |h.month|;
    var d' := m' + 1 + |h.day|;
    forall i | 0 <= i < |sp| ensures sp[i] != '\n' {
      if i < y' {
        assert sp[i] == h.year[i];
      } else if y' < i < m' {
        assert sp[i] == h.month[i - y' - 1];
      } else if m' < i < d' {
        assert sp[i] == h.day[i - m' - 1];
      }
    }
  }
}
