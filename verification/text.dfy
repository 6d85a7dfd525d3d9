/** String helpers with Python's semantics: `str.strip`, `str.split(sep)`, `sep.join`,
    `in` on strings, decimal rendering of integers and `%m`/`%d` zero padding. */
module Text {

  /** The characters for which Python's `str.isspace()` holds; the same set is what the
      regular-expression class `\s` matches in a `str` pattern. */
  predicate IsSpace(c: char)
  {
    || c == ' ' || ('\t' <= c <= '\r') || ('\U{1C}' <= c <= '\U{1F}')
    || c == '\U{85}' || c == '\U{A0}' || c == '\U{1680}'
    || ('\U{2000}' <= c <= '\U{200A}') || c == '\U{2028}' || c == '\U{2029}'
    || c == '\U{202F}' || c == '\U{205F}' || c == '\U{3000}'
  }

  predicate IsDigit(c: char) { '0' <= c <= '9' }

  function TrimLeft(s: string): (r: string)
    ensures |r| <= |s| && r == s[|s| - |r|..]
    ensures r != [] ==> !IsSpace(r[0])
    decreases |s|
  {
    if s != [] && IsSpace(s[0]) then TrimLeft(s[1..]) else s
  }

  function TrimRight(s: string): (r: string)
    ensures |r| <= |s| && r == s[..|r|]
    ensures r != [] ==> !IsSpace(r[|r| - 1])
    decreases |s|
  {
    if s != [] && IsSpace(s[|s| - 1]) then TrimRight(s[..|s| - 1]) else s
  }

  /** Python's `s.strip()`. */
  function Trim(s: string): (r: string)
    ensures |r| <= |s|
    ensures r == [] || (!IsSpace(r[0]) && !IsSpace(r[|r| - 1]))
  {
    TrimRight(TrimLeft(s))
  }

  /** The strip of `s` is a slice of `s` ... */
  lemma TrimIsStrip(s: string)
    ensures |s| - |TrimLeft(s)| + |Trim(s)| <= |s|
    ensures Trim(s) == s[|s| - |TrimLeft(s)|..|s| - |TrimLeft(s)| + |Trim(s)|]
  {
    var l := TrimLeft(s);
    SliceOfSuffix(s, |s| - |l|, l, TrimRight(l));
  }

  /** ... and what lies around it is whitespace. */
  lemma TrimDropsSpace(s: string)
    ensures forall k :: 0 <= k < |s| - |TrimLeft(s)| ==> IsSpace(s[k])
    ensures forall k :: |s| - |TrimLeft(s)| + |Trim(s)| <= k < |s| ==> IsSpace(s[k])
  {
    TrimLeftSpaces(s);
    TrimRightSpaces(TrimLeft(s));
    StripShape(s, TrimLeft(s), Trim(s), IsSpace);
  }

  /** `TrimLeft` drops only whitespace. */
  lemma {:induction false} TrimLeftSpaces(s: string)
    ensures forall i :: 0 <= i < |s| - |TrimLeft(s)| ==> IsSpace(s[i])
    decreases |s|
  {
    if s != [] && IsSpace(s[0]) {
      TrimLeftSpaces(s[1..]);
      forall i | 1 <= i < |s| - |TrimLeft(s)| ensures IsSpace(s[i]) {
        assert s[i] == s[1..][i - 1];
      }
    }
  }

  /** `TrimRight` drops only whitespace. */
  lemma {:induction false} TrimRightSpaces(s: string)
    ensures forall i :: |TrimRight(s)| <= i < |s| ==> IsSpace(s[i])
    decreases |s|
  {
    if s != [] && IsSpace(s[|s| - 1]) {
      TrimRightSpaces(s[..|s| - 1]);
      forall i | |TrimRight(s)| <= i < |s| - 1 ensures IsSpace(s[i]) {
        assert s[i] == s[..|s| - 1][i];
      }
    }
  }

  /** A prefix of a suffix of `s` is a slice of `s`. */
  lemma SliceOfSuffix<T>(s: seq<T>, i: nat, l: seq<T>, r: seq<T>)
    requires i <= |s| && l == s[i..] && |r| <= |l| && r == l[..|r|]
    ensures i + |r| <= |s| && r == s[i..i + |r|]
  {
  }

  /** Dropping a prefix of `P` elements and then a suffix of `P` elements leaves a slice
      with only `P` elements around it. */
  lemma StripShape<T>(s: seq<T>, l: seq<T>, r: seq<T>, P: T -> bool)
    requires |l| <= |s| && l == s[|s| - |l|..]
    requires forall k :: 0 <= k < |s| - |l| ==> P(s[k])
    requires |r| <= |l| && r == l[..|r|]
    requires forall k :: |r| <= k < |l| ==> P(l[k])
    ensures var i := |s| - |l|;
      && i + |r| <= |s| && r == s[i..i + |r|]
      && (forall k :: 0 <= k < i ==> P(s[k]))
      && (forall k :: i + |r| <= k < |s| ==> P(s[k]))
  {
    var i := |s| - |l|;
    forall k | i + |r| <= k < |s| ensures P(s[k]) {
      assert s[k] == l[k - i];
    }
  }

  /** Stripping is idempotent. */
  lemma TrimTwice(s: string)
    ensures Trim(Trim(s)) == Trim(s)
  {
    var t := Trim(s);
    assert TrimLeft(t) == t;
    assert TrimRight(t) == t;
  }

  /** Python's `sep.join(parts)`. */
  function Join(sep: string, parts: seq<string>): string
    decreases |parts|
  {
    if parts == [] then ""
    else if |parts| == 1 then parts[0]
    else parts[0] + sep + Join(sep, parts[1..])
  }

  /** Python's `s.split(sep)` for a one-character separator: the pieces between
      separators, at least one, none containing the separator. */
  function Split(s: string, sep: char): (r: seq<string>)
    ensures |r| >= 1
    ensures forall i :: 0 <= i < |r| ==> sep !in r[i]
    decreases |s|
  {
    if s == [] then [""]
    else
      var rest := Split(s[1..], sep);
      if s[0] == sep then [""] + rest
      else [[s[0]] + rest[0]] + rest[1..]
  }

  lemma {:induction false} JoinConsHead(sep: string, c: char, parts: seq<string>)
    requires parts != []
    ensures Join(sep, [[c] + parts[0]] + parts[1..]) == [c] + Join(sep, parts)
  {
    var q := [[c] + parts[0]] + parts[1..];
    assert q[1..] == parts[1..];
  }

  /** Joining the pieces of a split with the separator gives back the string. */
  lemma {:induction false} JoinSplit(s: string, sep: char)
    ensures Join([sep], Split(s, sep)) == s
    decreases |s|
  {
    if s != [] {
      var rest := Split(s[1..], sep);
      JoinSplit(s[1..], sep);
      if s[0] == sep {
        assert ([""] + rest)[1..] == rest;
        assert s == [sep] + s[1..];
      } else {
        JoinConsHead([sep], s[0], rest);
        assert s == [s[0]] + s[1..];
      }
    }
  }

  /** Splitting at one separator splits the two sides apart. */
  lemma {:induction false} SplitAtSep(a: string, b: string, sep: char)
    ensures Split(a + [sep] + b, sep) == Split(a, sep) + Split(b, sep)
    decreases |a|
  {
    var s := a + [sep] + b;
    if a == [] {
      assert s[0] == sep && s[1..] == b;
    } else {
      assert s[0] == a[0] && s[1..] == a[1..] + [sep] + b;
      SplitAtSep(a[1..], b, sep);
      SplitCons(a[0], a[1..], sep, Split(b, sep));
    }
  }

  /** One step of `Split` on a string and on that string followed by more pieces. */
  lemma SplitCons(c: char, a: string, sep: char, more: seq<string>)
    ensures var x := Split(a, sep);
      var y := x + more;
      (if c == sep then [""] + y else [[c] + y[0]] + y[1..])
        == (if c == sep then [""] + x else [[c] + x[0]] + x[1..]) + more
  {
    var x := Split(a, sep);
    assert (x + more)[0] == x[0];
    assert (x + more)[1..] == x[1..] + more;
  }

  /** A string without the separator is a single piece. */
  lemma {:induction false} SplitNoSep(a: string, sep: char)
    requires sep !in a
    ensures Split(a, sep) == [a]
    decreases |a|
  {
    if a != [] {
      SplitNoSep(a[1..], sep);
      assert [a[0]] + a[1..] == a;
    }
  }

  /** A separator-free join of separator-free parts. */
  lemma {:induction false} JoinNoChar(sep: string, parts: seq<string>, c: char)
    requires c !in sep && forall i :: 0 <= i < |parts| ==> c !in parts[i]
    ensures c !in Join(sep, parts)
    decreases |parts|
  {
    if |parts| > 1 {
      JoinNoChar(sep, parts[1..], c);
    }
  }

  /** Python's `s.startswith(prefix)`. */
  function StartsWith(s: string, prefix: string): bool
  {
    |prefix| <= |s| && s[..|prefix|] == prefix
  }

  /** `s.endsWith(suffix)`. */
  function EndsWith(s: string, suffix: string): bool
  {
    |suffix| <= |s| && s[|s| - |suffix|..] == suffix
  }

  /** Python's `t in s` for strings. */
  predicate Contains(s: string, t: string)
    decreases |s|
  {
    (|t| <= |s| && s[..|t|] == t) || (s != [] && Contains(s[1..], t))
  }

  lemma {:induction false} ContainsAt(s: string, t: string, i: nat)
    requires i + |t| <= |s| && s[i..i + |t|] == t
    ensures Contains(s, t)
    decreases i
  {
    if i > 0 {
      assert s[1..][i - 1..i - 1 + |t|] == s[i..i + |t|];
      ContainsAt(s[1..], t, i - 1);
    }
  }

  /** A string ends with itself. */
  lemma ContainsSuffix(a: string, t: string)
    ensures Contains(a + t, t)
  {
    assert (a + t)[|a|..|a| + |t|] == t;
    ContainsAt(a + t, t, |a|);
  }

  /** What a string contains, it still contains with more after it ... */
  lemma {:induction false} ContainsExtend(s: string, t: string, b: string)
    requires Contains(s, t)
    ensures Contains(s + b, t)
    decreases |s|
  {
    if |t| <= |s| && s[..|t|] == t {
      assert (s + b)[..|t|] == t;
    } else {
      ContainsExtend(s[1..], t, b);
      assert (s + b)[1..] == s[1..] + b;
    }
  }

  /** ... and with more before it. */
  lemma {:induction false} ContainsPrepend(a: string, s: string, t: string)
    requires Contains(s, t)
    ensures Contains(a + s, t)
    decreases |a|
  {
    if a == [] {
      assert a + s == s;
    } else {
      ContainsPrepend(a[1..], s, t);
      assert (a + s)[1..] == a[1..] + s;
    }
  }

  /** A joined string contains each part. */
  lemma {:induction false} JoinContains(sep: string, parts: seq<string>, k: nat)
    requires k < |parts|
    ensures Contains(Join(sep, parts), parts[k])
    decreases |parts|
  {
    if |parts| == 1 {
      assert parts[0][..|parts[0]|] == parts[0];
    } else if k == 0 {
      assert parts[0][..|parts[0]|] == parts[0];
      ContainsExtend(parts[0], parts[0], sep + Join(sep, parts[1..]));
      assert parts[0] + (sep + Join(sep, parts[1..])) == Join(sep, parts);
    } else {
      JoinContains(sep, parts[1..], k - 1);
      ContainsPrepend(parts[0] + sep, Join(sep, parts[1..]), parts[k]);
    }
  }

  function LowerChar(c: char): char
  {
    if 'A' <= c <= 'Z' then (c as int + 32) as char else c
  }

  /** Lower-casing of the ASCII letters; other characters are kept. */
  function LowerAscii(s: string): (r: string)
    ensures |r| == |s|
    ensures forall i :: 0 <= i < |s| ==> r[i] == LowerChar(s[i])
    decreases |s|
  {
    if s == [] then "" else [LowerChar(s[0])] + LowerAscii(s[1..])
  }

  function DigitChar(d: nat): char
    requires d < 10
  {
    ('0' as int + d) as char
  }

  /** Python's `str(n)` / f-string rendering of a non-negative integer. */
  function NatToString(n: nat): (r: string)
    ensures |r| >= 1
    ensures forall i :: 0 <= i < |r| ==> IsDigit(r[i])
    ensures |r| > 1 ==> r[0] != '0'
    decreases n
  {
    if n < 10 then [DigitChar(n)] else NatToString(n / 10) + [DigitChar(n % 10)]
  }

  /** The value of a string of decimal digits. */
  function DecimalValue(s: string): nat
    requires forall i :: 0 <= i < |s| ==> IsDigit(s[i])
    decreases |s|
  {
    if s == [] then 0
    else
      var last := s[|s| - 1];
      assert IsDigit(last);
      10 * DecimalValue(s[..|s| - 1]) + (last as int - '0' as int)
  }

  /** Rendering in decimal loses nothing: reading the digits back gives the number. */
  lemma {:induction false} NatToStringRoundTrip(n: nat)
    ensures DecimalValue(NatToString(n)) == n
    decreases n
  {
    if n >= 10 {
      NatToStringRoundTrip(n / 10);
      var r := NatToString(n);
      assert r[..|r| - 1] == NatToString(n / 10);
    }
  }

  /** Two-digit zero-padded rendering, as `strftime('%m')` and `strftime('%d')` give. */
  function Pad2(n: nat): (r: string)
    requires n < 100
    ensures |r| == 2
    ensures forall i :: 0 <= i < 2 ==> IsDigit(r[i])
    ensures DecimalValue(r) == n
  {
    NatToStringRoundTrip(n);
    if n < 10 then "0" + NatToString(n) else NatToString(n)
  }
  // ----- code-point order ----------------------------------------------------------------

  /** Lexicographic order on code points: the order SQLite's default collation gives
      UTF-8 text, and Python's `<` on `str`. */
  predicate StrLess(a: string, b: string)
    decreases |a|
  {
    if a == [] then b != []
    else b != [] && (a[0] < b[0] || (a[0] == b[0] && StrLess(a[1..], b[1..])))
  }

  lemma {:induction false} StrLessIrreflexive(a: string)
    ensures !StrLess(a, a)
    decreases |a|
  {
    if a != [] {
      StrLessIrreflexive(a[1..]);
    }
  }

  lemma {:induction false} StrLessTransitive(a: string, b: string, c: string)
    requires StrLess(a, b) && StrLess(b, c)
    ensures StrLess(a, c)
    decreases |a|
  {
    if a != [] && a[0] == b[0] && b[0] == c[0] {
      StrLessTransitive(a[1..], b[1..], c[1..]);
    }
  }

  /** Any two different strings are ordered one way or the other. */
  lemma {:induction false} StrLessTotal(a: string, b: string)
    requires a != b
    ensures StrLess(a, b) || StrLess(b, a)
    decreases |a|
  {
    if a != [] && b != [] && a[0] == b[0] {
      assert a == [a[0]] + a[1..] && b == [b[0]] + b[1..];
      StrLessTotal(a[1..], b[1..]);
    }
  }

  lemma StrLessAsymmetric(a: string, b: string)
    requires StrLess(a, b)
    ensures !StrLess(b, a)
  {
    if StrLess(b, a) {
      StrLessTransitive(a, b, a);
      StrLessIrreflexive(a);
    }
  }

  /** Strictly ascending in code-point order (so without repeats). */
  ghost predicate Ascending(s: seq<string>)
  {
    forall i, j :: 0 <= i < j < |s| ==> StrLess(s[i], s[j])
  }

  /** Inserts a new string at its place in an ascending sequence. */
  function InsertAsc(s: seq<string>, x: string): (r: seq<string>)
    requires Ascending(s) && x !in s
    ensures Ascending(r)
    ensures multiset(r) == multiset(s) + multiset{x}
    ensures |r| == |s| + 1
    ensures r[0] == x || (s != [] && r[0] == s[0])
    decreases |s|
  {
    if s == [] then [x]
    else if StrLess(x, s[0]) then
      BelowHead(x, s);
      ConsAscending(x, s);
      [x] + s
    else
      StrLessTotal(x, s[0]);
      var t := InsertAsc(s[1..], x);
      HeadBelowInsertion(s, x, t);
      ConsAscending(s[0], t);
      assert s == [s[0]] + s[1..];
      [s[0]] + t
  }

  /** A string below the head of an ascending sequence is below all of it. */
  lemma BelowHead(x: string, s: seq<string>)
    requires Ascending(s) && s != [] && StrLess(x, s[0])
    ensures forall j :: 0 <= j < |s| ==> StrLess(x, s[j])
  {
    forall j | 0 < j < |s| ensures StrLess(x, s[j]) {
      StrLessTransitive(x, s[0], s[j]);
    }
  }

  /** A string below every element of an ascending sequence can go in front. */
  lemma ConsAscending(x: string, s: seq<string>)
    requires Ascending(s) && forall j :: 0 <= j < |s| ==> StrLess(x, s[j])
    ensures Ascending([x] + s)
  {
    var r := [x] + s;
    forall i, j | 0 <= i < j < |r| ensures StrLess(r[i], r[j]) {
      assert r[j] == s[j - 1];
      if i > 0 {
        assert r[i] == s[i - 1];
      }
    }
  }

  /** The head of an ascending sequence is below everything of the insertion of a larger
      string into the rest. */
  lemma HeadBelowInsertion(s: seq<string>, x: string, t: seq<string>)
    requires Ascending(s) && s != [] && StrLess(s[0], x)
    requires multiset(t) == multiset(s[1..]) + multiset{x}
    ensures forall j :: 0 <= j < |t| ==> StrLess(s[0], t[j])
  {
    forall j | 0 <= j < |t| ensures StrLess(s[0], t[j]) {
      assert t[j] in multiset(t);
      if t[j] != x {
        assert t[j] in multiset(s[1..]);
        var k :| 0 <= k < |s[1..]| && s[1..][k] == t[j];
        assert s[k + 1] == t[j];
      }
    }
  }
}
