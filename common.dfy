/** Small value-level helpers shared by the fetcher, the analysis and the
    predictor: optional values, decimal numerals, Python's `strip`-family and
    `split` on one separator character, code-point string order, and the
    first-appearance de-duplication that pandas' `unique()` performs. */
module Common {

  datatype Option<+T> = None | Some(value: T)

  // ---------------------------------------------------------------------
  // Characters

  /** Python's `str.isspace()` for one character: the characters that a
      bare `strip()` removes. */
  predicate IsSpace(c: char)
  {
    c == ' ' || ('\t' <= c <= '\r') || ('\U{1C}' <= c <= '\U{1F}')
    || c == '\U{85}' || c == '\U{A0}' || c == '\U{1680}'
    || ('\U{2000}' <= c <= '\U{200A}') || c == '\U{2028}' || c == '\U{2029}'
    || c == '\U{202F}' || c == '\U{205F}' || c == '\U{3000}'
  }

  /** An ASCII decimal digit, the only digits `int()` is given here. */
  predicate IsAsciiDigit(c: char)
  {
    '0' <= c <= '9'
  }

  /** A non-empty string of ASCII decimal digits. */
  predicate IsNumeral(s: string)
  {
    |s| > 0 && forall i :: 0 <= i < |s| ==> IsAsciiDigit(s[i])
  }

  function DigitChar(d: nat): (c: char)
    requires d < 10
    ensures IsAsciiDigit(c) && c as int - '0' as int == d
  {
    ('0' as int + d) as char
  }

  // ---------------------------------------------------------------------
  // Decimal numerals

  function DigitValue(c: char): (d: nat)
    requires IsAsciiDigit(c)
    ensures d < 10 && DigitChar(d) == c
  {
    c as int - '0' as int
  }

  /** Value of a decimal numeral, as Python's `int()` reads it. */
  function ParseNat(s: string): nat
    requires forall i :: 0 <= i < |s| ==> IsAsciiDigit(s[i])
  {
    if s == [] then 0
    else 10 * ParseNat(s[..|s| - 1]) + DigitValue(s[|s| - 1])
  }

  /** Canonical decimal form of a natural number, as Python's `str()`. */
  function NatToString(n: nat): (s: string)
    ensures IsNumeral(s)
    ensures s[0] != '0' || n == 0
    ensures ParseNat(s) == n
    decreases n
  {
    if n < 10 then [DigitChar(n)]
    else
      var prefix := NatToString(n / 10);
      var s := prefix + [DigitChar(n % 10)];
      assert s[..|s| - 1] == prefix;
      s
  }

  /** A leading '0' does not change the value of a numeral. */
  lemma {:induction false} ParseNatLeadingZero(s: string)
    requires forall i :: 0 <= i < |s| ==> IsAsciiDigit(s[i])
    ensures ParseNat(['0'] + s) == ParseNat(s)
    decreases |s|
  {
    var z := ['0'] + s;
    if s != [] {
      assert z[..|z| - 1] == ['0'] + s[..|s| - 1];
      ParseNatLeadingZero(s[..|s| - 1]);
    }
  }

  /** A numeral whose first digit is not '0' has a positive value. */
  lemma {:induction false} ParseNatPositive(s: string)
    requires IsNumeral(s) && s[0] != '0'
    ensures ParseNat(s) > 0
    decreases |s|
  {
    if |s| > 1 {
      ParseNatPositive(s[..|s| - 1]);
    }
  }

  /** A numeral without a leading '0' is the canonical form of its value:
      `str(int(s)) == s`. */
  lemma {:induction false} NatToStringOfNumeral(s: string)
    requires IsNumeral(s) && s[0] != '0'
    ensures NatToString(ParseNat(s)) == s
    decreases |s|
  {
    if |s| > 1 {
      var prefix := s[..|s| - 1];
      ParseNatPositive(prefix);
      NatToStringOfNumeral(prefix);
      var n := ParseNat(s);
      var d := DigitValue(s[|s| - 1]);
      assert n / 10 == ParseNat(prefix) && n % 10 == d;
      assert s == prefix + [s[|s| - 1]];
    }
  }

  // ---------------------------------------------------------------------
  // strip / lstrip / rstrip

  /** The argument of `strip`/`lstrip`/`rstrip`: whitespace when there is
      none, or the one character given. */
  datatype CharClass = Whitespace | Only(c: char)

  predicate InClass(k: CharClass, x: char)
  {
    match k
    case Whitespace => IsSpace(x)
    case Only(c) => x == c
  }

  /** Python's `lstrip`: drops the longest prefix of characters in `k`. */
  function TrimStart(s: string, k: CharClass): (r: string)
    ensures |r| <= |s| && r == s[|s| - |r|..]
    ensures forall i :: 0 <= i < |s| - |r| ==> InClass(k, s[i])
    ensures r != [] ==> !InClass(k, r[0])
  {
    if s != [] && InClass(k, s[0]) then TrimStart(s[1..], k) else s
  }

  /** Python's `rstrip`: drops the longest suffix of characters in `k`. */
  function TrimEnd(s: string, k: CharClass): (r: string)
    ensures |r| <= |s| && r == s[..|r|]
    ensures forall i :: |r| <= i < |s| ==> InClass(k, s[i])
    ensures r != [] ==> !InClass(k, r[|r| - 1])
  {
    if s != [] && InClass(k, s[|s| - 1]) then TrimEnd(s[..|s| - 1], k) else s
  }

  /** Python's bare `strip()`: whitespace removed from both ends. */
  function Strip(s: string): (r: string)
    ensures r != [] ==> !IsSpace(r[0]) && !IsSpace(r[|r| - 1])
  {
    TrimStart(TrimEnd(s, Whitespace), Whitespace)
  }

  /** Stripping only removes characters. */
  lemma StripWithin(s: string, c: char)
    ensures c in Strip(s) ==> c in s
  {
    var e := TrimEnd(s, Whitespace);
    var r := TrimStart(e, Whitespace);
    if c in r {
      var i :| 0 <= i < |r| && r[i] == c;
      assert r[i] == e[|e| - |r| + i] == s[|e| - |r| + i];
    }
  }

  /** `s.rstrip(...)` only removes characters. */
  lemma TrimEndWithin(s: string, k: CharClass, c: char)
    ensures c in TrimEnd(s, k) ==> c in s
  {
    var r := TrimEnd(s, k);
    if c in r {
      var i :| 0 <= i < |r| && r[i] == c;
      assert s[i] == c;
    }
  }

  /** `s.lstrip('0')` of a numeral keeps its value; when the value is
      positive what is left is the canonical numeral `str(int(s))`. */
  lemma {:induction false} StripLeadingZeros(s: string)
    requires IsNumeral(s)
    ensures var t := TrimStart(s, Only('0'));
      && (forall i :: 0 <= i < |t| ==> IsAsciiDigit(t[i]))
      && ParseNat(t) == ParseNat(s)
      && (ParseNat(s) > 0 ==> t == NatToString(ParseNat(s)))
    decreases |s|
  {
    var t := TrimStart(s, Only('0'));
    if s[0] == '0' {
      var tail := s[1..];
      assert s == ['0'] + tail;
      ParseNatLeadingZero(tail);
      assert t == TrimStart(tail, Only('0'));
      if tail != [] {
        StripLeadingZeros(tail);
      }
    } else {
      assert t == s;
      NatToStringOfNumeral(s);
    }
  }

  /** `rstrip` removes exactly a trailing run of characters in `k`. */
  lemma {:induction false} TrimEndOf(s: string, tail: string, k: CharClass)
    requires forall i :: 0 <= i < |tail| ==> InClass(k, tail[i])
    requires s == [] || !InClass(k, s[|s| - 1])
    ensures TrimEnd(s + tail, k) == s
    decreases |tail|
  {
    if tail == [] {
      assert s + tail == s;
    } else {
      var init := tail[..|tail| - 1];
      assert (s + tail)[..|s + tail| - 1] == s + init;
      TrimEndOf(s, init, k);
    }
  }

  /** `lstrip` removes exactly a leading run of characters in `k`. */
  lemma {:induction false} TrimStartOf(head: string, s: string, k: CharClass)
    requires forall i :: 0 <= i < |head| ==> InClass(k, head[i])
    requires s == [] || !InClass(k, s[0])
    ensures TrimStart(head + s, k) == s
    decreases |head|
  {
    if head == [] {
      assert head + s == s;
    } else {
      assert (head + s)[1..] == head[1..] + s;
      TrimStartOf(head[1..], s, k);
    }
  }

  /** `strip()` removes exactly the whitespace around a core that neither
      starts nor ends with whitespace. */
  lemma StripOf(pre: string, core: string, post: string)
    requires forall i :: 0 <= i < |pre| ==> IsSpace(pre[i])
    requires forall i :: 0 <= i < |post| ==> IsSpace(post[i])
    requires core != [] ==> !IsSpace(core[0]) && !IsSpace(core[|core| - 1])
    ensures Strip(pre + core + post) == core
  {
    if core == [] {
      TrimEndOf([], pre + post, Whitespace);
      assert pre + core + post == [] + (pre + post);
      TrimStartOf([], [], Whitespace);
    } else {
      TrimEndOf(pre + core, post, Whitespace);
      TrimStartOf(pre, core, Whitespace);
    }
  }

  // ---------------------------------------------------------------------
  // split on one character

  /** Inverse of `Split`: the parts glued back with the separator. */
  function Join(parts: seq<string>, sep: char): string
    requires |parts| >= 1
  {
    if |parts| == 1 then parts[0] else parts[0] + [sep] + Join(parts[1..], sep)
  }

  /** Gluing a character to the front of the first part glues it to the
      front of the whole. */
  lemma JoinPrepend(x: char, parts: seq<string>, sep: char)
    requires |parts| >= 1
    ensures Join([[x] + parts[0]] + parts[1..], sep) == [x] + Join(parts, sep)
  {
    var glued := [[x] + parts[0]] + parts[1..];
    if |parts| > 1 {
      assert glued[1..] == parts[1..];
    }
  }

  /** Python's `s.split(sep)` for a one-character separator: every part is
      free of the separator and gluing the parts back gives `s`. */
  function Split(s: string, sep: char): (parts: seq<string>)
    ensures |parts| >= 1
    ensures forall i :: 0 <= i < |parts| ==> sep !in parts[i]
    ensures Join(parts, sep) == s
  {
    if s == [] then [[]]
    else
      var rest := Split(s[1..], sep);
      if s[0] == sep then
        var parts := [[]] + rest;
        assert parts[1..] == rest;
        parts
      else
        JoinPrepend(s[0], rest, sep);
        [[s[0]] + rest[0]] + rest[1..]
  }

  /** There is one part more than there are separators. */
  lemma {:induction false} SplitCount(s: string, sep: char)
    ensures |Split(s, sep)| == multiset(s)[sep] + 1
  {
    if s != [] {
      SplitCount(s[1..], sep);
      assert s == [s[0]] + s[1..];
      assert multiset(s) == multiset{s[0]} + multiset(s[1..]);
    }
  }

  /** Splitting is the only separator-free decomposition that glues back to
      the string: `Split` and `Join` are mutually inverse. */
  lemma {:induction false} SplitJoin(parts: seq<string>, sep: char)
    requires |parts| >= 1
    requires forall i :: 0 <= i < |parts| ==> sep !in parts[i]
    ensures Split(Join(parts, sep), sep) == parts
    decreases |Join(parts, sep)|
  {
    var s := Join(parts, sep);
    if parts[0] == [] {
      if |parts| > 1 {
        assert s == [sep] + Join(parts[1..], sep);
        assert s[1..] == Join(parts[1..], sep);
        SplitJoin(parts[1..], sep);
        assert parts == [[]] + parts[1..];
      }
    } else {
      var x := parts[0][0];
      var tail := [parts[0][1..]] + parts[1..];
      assert parts[0] == [x] + tail[0];
      assert tail[1..] == parts[1..];
      assert sep !in tail[0];
      JoinPrepend(x, tail, sep);
      assert s == [x] + Join(tail, sep);
      assert s[1..] == Join(tail, sep);
      SplitJoin(tail, sep);
      assert parts == [[x] + tail[0]] + tail[1..];
    }
  }

  /** The last part is what follows the last separator. */
  lemma {:induction false} JoinLast(parts: seq<string>, sep: char)
    requires |parts| >= 2
    ensures Join(parts, sep) == Join(parts[..|parts| - 1], sep) + [sep] + parts[|parts| - 1]
    decreases |parts|
  {
    if |parts| > 2 {
      JoinLast(parts[1..], sep);
      assert parts[1..][..|parts| - 2] == parts[..|parts| - 1][1..];
    }
  }

  // ---------------------------------------------------------------------
  // Python string order (by code point) and sequences without duplicates

  /** `a <= b` for Python strings: code-point lexicographic order. */
  predicate LexLeq(a: string, b: string)
  {
    a == [] || (b != [] && (a[0] < b[0] || (a[0] == b[0] && LexLeq(a[1..], b[1..]))))
  }

  lemma {:induction false} LexLeqTotal(a: string, b: string)
    ensures LexLeq(a, b) || LexLeq(b, a)
  {
    if a != [] && b != [] && a[0] == b[0] {
      LexLeqTotal(a[1..], b[1..]);
    }
  }

  lemma {:induction false} LexLeqTransitive(a: string, b: string, c: string)
    requires LexLeq(a, b) && LexLeq(b, c)
    ensures LexLeq(a, c)
  {
    if a != [] && b != [] && c != [] && a[0] == b[0] == c[0] {
      LexLeqTransitive(a[1..], b[1..], c[1..]);
    }
  }

  lemma {:induction false} LexLeqAntisymmetric(a: string, b: string)
    requires LexLeq(a, b) && LexLeq(b, a)
    ensures a == b
  {
    if a != [] && b != [] {
      LexLeqAntisymmetric(a[1..], b[1..]);
      assert a == [a[0]] + a[1..] && b == [b[0]] + b[1..];
    }
  }

  predicate NoDuplicates<T(==)>(s: seq<T>)
  {
    forall i, j :: 0 <= i < j < |s| ==> s[i] != s[j]
  }

  /** pandas' `unique()`: the distinct elements, in order of first appearance. */
  function Distinct<T(==)>(s: seq<T>): (d: seq<T>)
    ensures forall i :: 0 <= i < |d| ==> d[i] in s
    ensures forall i :: 0 <= i < |s| ==> s[i] in d
    ensures NoDuplicates(d)
    ensures |d| <= |s|
  {
    if s == [] then []
    else
      var p := Distinct(s[..|s| - 1]);
      var x := s[|s| - 1];
      assert s == s[..|s| - 1] + [x];
      if x in p then p else p + [x]
  }

  /** Every element of a duplicate-free sequence is its own first
      appearance, so `unique()` leaves it as it is. */
  lemma {:induction false} DistinctOfDistinct<T>(s: seq<T>)
    requires NoDuplicates(s)
    ensures Distinct(s) == s
  {
    if s != [] {
      var p := s[..|s| - 1];
      DistinctOfDistinct(p);
      assert s[|s| - 1] !in p;
      assert s == p + [s[|s| - 1]];
    }
  }
}
