/**
 The QString operations the location line codec relies on: whitespace as
 QChar::isSpace sees it, trimmed(), split() on a one-character separator
 (empty parts kept), the matching join, left(), endsWith() and toUpper().
 Strings are sequences of characters.
 */
module Text {

  const TAB: char := '\t'
  const NUL: char := '\0'

  /** QChar::isSpace: the separator categories (Zs, Zl, Zp) and the
      control characters U+0009..U+000D and U+0085. */
  predicate IsSpace(c: char) {
    c == ' ' || ('\t' <= c <= '\r') ||
    c as int == 0x85 || c as int == 0xA0 || c as int == 0x1680 ||
    (0x2000 <= c as int <= 0x200A) ||
    c as int == 0x2028 || c as int == 0x2029 || c as int == 0x202F ||
    c as int == 0x205F || c as int == 0x3000
  }

  /** A string that trimmed() leaves as it is. */
  predicate NoEdgeSpace(s: string) {
    s == [] || (!IsSpace(s[0]) && !IsSpace(s[|s| - 1]))
  }

  /** Drops the leading whitespace. */
  function TrimStart(s: string): (r: string)
    ensures |r| <= |s|
    ensures r == [] || !IsSpace(r[0])
  {
    if s != [] && IsSpace(s[0]) then TrimStart(s[1..]) else s
  }

  /** Drops the trailing whitespace. */
  function TrimEnd(s: string): (r: string)
    ensures |r| <= |s|
    ensures r == [] || !IsSpace(r[|r| - 1])
    ensures r != [] ==> r[0] == s[0]
  {
    if s != [] && IsSpace(s[|s| - 1]) then TrimEnd(s[..|s| - 1]) else s
  }

  /** What TrimStart keeps is a suffix of its input, and all it drops is whitespace. */
  lemma {:induction false} TrimStartIsSuffix(s: string)
    ensures s[|s| - |TrimStart(s)|..] == TrimStart(s)
    ensures forall i :: 0 <= i < |s| - |TrimStart(s)| ==> IsSpace(s[i])
    decreases |s|
  {
    if s != [] && IsSpace(s[0]) {
      TrimStartIsSuffix(s[1..]);
      var r := TrimStart(s[1..]);
      assert s[|s| - |r|..] == s[1..][|s| - 1 - |r|..];
      forall i | 1 <= i < |s| - |r| ensures IsSpace(s[i]) {
        assert s[i] == s[1..][i - 1];
      }
    }
  }

  /** What TrimEnd keeps is a prefix of its input, and all it drops is whitespace. */
  lemma {:induction false} TrimEndIsPrefix(s: string)
    ensures s[..|TrimEnd(s)|] == TrimEnd(s)
    ensures forall i :: |TrimEnd(s)| <= i < |s| ==> IsSpace(s[i])
    decreases |s|
  {
    if s != [] && IsSpace(s[|s| - 1]) {
      TrimEndIsPrefix(s[..|s| - 1]);
      var r := TrimEnd(s[..|s| - 1]);
      assert s[..|r|] == s[..|s| - 1][..|r|];
      forall i | |r| <= i < |s| - 1 ensures IsSpace(s[i]) {
        assert s[i] == s[..|s| - 1][i];
      }
    }
  }

  /** QString::trimmed. */
  function Trim(s: string): (r: string)
    ensures |r| <= |s|
    ensures NoEdgeSpace(r)
  {
    TrimEnd(TrimStart(s))
  }

  /** trimmed() changes exactly the strings that begin or end with whitespace. */
  lemma TrimFixedPoints(s: string)
    ensures Trim(s) == s <==> NoEdgeSpace(s)
  {
    if NoEdgeSpace(s) {
      assert TrimStart(s) == s;
      assert TrimEnd(s) == s;
    }
  }

  /** trimmed() keeps every character that is not whitespace. */
  lemma TrimKeeps(s: string, i: int)
    requires 0 <= i < |s| && !IsSpace(s[i])
    ensures s[i] in Trim(s)
  {
    TrimStartIsSuffix(s);
    var t := TrimStart(s);
    var k := |s| - |t|;
    assert s[i] == t[i - k] by { assert s[k..] == t; }
    TrimEndIsPrefix(t);
    assert t[i - k] == TrimEnd(t)[i - k] by { assert t[..|TrimEnd(t)|] == TrimEnd(t); }
  }

  lemma TrimIdempotent(s: string)
    ensures Trim(Trim(s)) == Trim(s)
  {
    TrimFixedPoints(Trim(s));
  }

  /** QString::left(n): the whole string when n is negative or not below
      the length, the first n characters otherwise. */
  function Left(s: string, n: int): (r: string)
    ensures 0 <= n < |s| ==> |r| == n
    ensures n < 0 || n >= |s| ==> r == s
    ensures |r| <= |s| && r == s[..|r|]
  {
    if n < 0 || n >= |s| then s else s[..n]
  }

  /** QString::endsWith(QChar), case-sensitive. */
  predicate EndsWith(s: string, c: char) {
    |s| > 0 && s[|s| - 1] == c
  }

  predicate IsLowerAscii(c: char) {
    'a' <= c <= 'z'
  }

  /** QChar::toUpper on the ASCII letters; every other character maps to itself. */
  function ToUpper(c: char): (r: char)
    ensures !IsLowerAscii(r)
    ensures IsLowerAscii(c) ==> r as int == c as int - 32
    ensures !IsLowerAscii(c) ==> r == c
  {
    if IsLowerAscii(c) then (c as int - 32) as char else c
  }

  /** QString::split(sep) with empty parts kept: at least one part, and no
      part contains the separator. */
  function Split(s: string, sep: char): (parts: seq<string>)
    ensures |parts| >= 1
    ensures forall i :: 0 <= i < |parts| ==> sep !in parts[i]
    decreases |s|
  {
    if s == [] then [[]]
    else
      var rest := Split(s[1..], sep);
      if s[0] == sep then [[]] + rest
      else [[s[0]] + rest[0]] + rest[1..]
  }

  /** split() yields one part more than there are separators. */
  lemma {:induction false} SplitCount(s: string, sep: char)
    ensures |Split(s, sep)| == 1 + multiset(s)[sep]
    decreases |s|
  {
    if s != [] {
      SplitCount(s[1..], sep);
      assert s == [s[0]] + s[1..];
    }
  }

  /** The parts glued back with the separator between consecutive parts. */
  function Join(parts: seq<string>, sep: char): (s: string)
    requires |parts| >= 1
  {
    if |parts| == 1 then parts[0] else parts[0] + [sep] + Join(parts[1..], sep)
  }

  lemma {:induction false} SplitWithoutSep(a: string, sep: char)
    requires sep !in a
    ensures Split(a, sep) == [a]
    decreases |a|
  {
    if a != [] {
      SplitWithoutSep(a[1..], sep);
      assert [a[0]] + a[1..] == a;
    }
  }

  lemma {:induction false} SplitAtFirstSep(a: string, b: string, sep: char)
    requires sep !in a
    ensures Split(a + [sep] + b, sep) == [a] + Split(b, sep)
    decreases |a|
  {
    var s := a + [sep] + b;
    if a == [] {
      assert s[1..] == b;
    } else {
      assert s[1..] == a[1..] + [sep] + b;
      SplitAtFirstSep(a[1..], b, sep);
      assert [a[0]] + a[1..] == a;
    }
  }

  /** split() undoes join() when no part contains the separator. */
  lemma {:induction false} SplitJoin(parts: seq<string>, sep: char)
    requires |parts| >= 1
    requires forall i :: 0 <= i < |parts| ==> sep !in parts[i]
    ensures Split(Join(parts, sep), sep) == parts
    decreases |parts|
  {
    if |parts| == 1 {
      SplitWithoutSep(parts[0], sep);
    } else {
      SplitJoin(parts[1..], sep);
      SplitAtFirstSep(parts[0], Join(parts[1..], sep), sep);
      assert [parts[0]] + parts[1..] == parts;
    }
  }

  /** join() undoes split(): splitting loses nothing. */
  lemma {:induction false} JoinSplit(s: string, sep: char)
    ensures Join(Split(s, sep), sep) == s
    decreases |s|
  {
    if s != [] {
      JoinSplit(s[1..], sep);
      var rest := Split(s[1..], sep);
      if s[0] == sep {
        JoinAfterEmpty(rest, sep);
      } else {
        JoinGrowFirst(s[0], rest, sep);
      }
    }
  }

  lemma JoinAfterEmpty(rest: seq<string>, sep: char)
    requires |rest| >= 1
    ensures Join([[]] + rest, sep) == [sep] + Join(rest, sep)
  {
    assert ([[]] + rest)[1..] == rest;
  }

  lemma JoinGrowFirst(c: char, rest: seq<string>, sep: char)
    requires |rest| >= 1
    ensures Join([[c] + rest[0]] + rest[1..], sep) == [c] + Join(rest, sep)
  {
    var parts := [[c] + rest[0]] + rest[1..];
    if |rest| > 1 {
      assert parts[1..] == rest[1..];
    }
  }
}
