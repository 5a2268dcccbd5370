/**
 The numeric text conversions the location line codec uses, on exact
 integers instead of floats:
 - QString::number / arg(int): decimal text of an integer;
 - arg(double, 0, 'f', 6): six-decimal text of a non-negative magnitude
   held in millionths;
 - QString::toFloat: a decimal number read into millionths, 0 when the
   text is not a number;
 - QString::toInt: a decimal 32-bit integer, or a failure;
 - the C++ `/` on int and the float-to-int cast, which truncate toward zero.
 */
module Numbers {
  import opened Text

  datatype Option<T> = None | Some(value: T)

  /** Fixed-point scale: one unit of a "float" value is 10^-6. */
  const Micro: nat := 1000000

  const Int32Min: int := -0x8000_0000
  const Int32Max: int := 0x7FFF_FFFF

  predicate IsDigit(c: char) {
    '0' <= c <= '9'
  }

  predicate AllDigits(s: string) {
    forall i :: 0 <= i < |s| ==> IsDigit(s[i])
  }

  function Pow10(k: nat): (p: nat)
    ensures p >= 1
  {
    if k == 0 then 1 else 10 * Pow10(k - 1)
  }

  function DigitChar(d: nat): (c: char)
    requires d < 10
    ensures IsDigit(c)
  {
    ('0' as int + d) as char
  }

  function DigitValue(c: char): (d: nat)
    requires IsDigit(c)
    ensures d < 10
    ensures DigitChar(d) == c
  {
    c as int - '0' as int
  }

  /** The value of a string of decimal digits, most significant first. */
  function ValueOf(s: string): nat
    requires AllDigits(s)
  {
    if s == [] then 0 else 10 * ValueOf(s[..|s| - 1]) + DigitValue(s[|s| - 1])
  }

  /** The shortest decimal text of a natural number. */
  function Digits(n: nat): (r: string)
    ensures |r| >= 1 && AllDigits(r)
    ensures r[0] == '0' ==> n == 0
  {
    if n < 10 then [DigitChar(n)] else Digits(n / 10) + [DigitChar(n % 10)]
  }

  /** The last `w` decimal digits of `n`, with leading zeros. */
  function Pad(n: nat, w: nat): (r: string)
    ensures |r| == w && AllDigits(r)
  {
    if w == 0 then [] else Pad(n / 10, w - 1) + [DigitChar(n % 10)]
  }

  lemma {:induction false} ValueOfDigits(n: nat)
    ensures ValueOf(Digits(n)) == n
  {
    var r := Digits(n);
    if n >= 10 {
      ValueOfDigits(n / 10);
      assert r[..|r| - 1] == Digits(n / 10);
    }
  }

  lemma {:induction false} ValueOfPad(n: nat, w: nat)
    requires n < Pow10(w)
    ensures ValueOf(Pad(n, w)) == n
  {
    if w > 0 {
      var r := Pad(n, w);
      assert n / 10 < Pow10(w - 1);
      ValueOfPad(n / 10, w - 1);
      assert r[..|r| - 1] == Pad(n / 10, w - 1);
    }
  }

  /** Decimal text of an integer, with a leading '-' for a negative one. */
  function FormatInt(x: int): (r: string)
    ensures |r| >= 1 && NoEdgeSpace(r)
    ensures (r[0] == '-') == (x < 0)
  {
    if x < 0 then "-" + Digits(-x) else Digits(x)
  }

  /** The integer text holds only digits and the sign. */
  lemma FormatIntChars(x: int)
    ensures forall i :: 0 <= i < |FormatInt(x)| ==> FormatInt(x)[i] == '-' || IsDigit(FormatInt(x)[i])
  {
  }

  /** The six-decimal text ends in a point followed by exactly six digits. */
  lemma FormatFixed6Places(m: nat)
    ensures var r := FormatFixed6(m);
      |r| >= 8 && r[|r| - 7] == '.' && forall i :: |r| - 6 <= i < |r| ==> IsDigit(r[i])
  {
    var d, p := Digits(m / Micro), Pad(m % Micro, 6);
    assert FormatFixed6(m) == d + "." + p;
  }

  /** Text of magnitude m/10^6 with exactly six decimals, as 'f', 6 writes it. */
  function FormatFixed6(m: nat): (r: string)
    ensures |r| >= 8 && NoEdgeSpace(r)
    ensures IsDigit(r[0]) && IsDigit(r[|r| - 1])
  {
    Digits(m / Micro) + "." + Pad(m % Micro, 6)
  }

  /** The six-decimal text holds only digits and the point. */
  lemma FormatFixed6Chars(m: nat)
    ensures forall i :: 0 <= i < |FormatFixed6(m)| ==> FormatFixed6(m)[i] == '.' || IsDigit(FormatFixed6(m)[i])
  {
  }

  /** Position of the first `c` in `s`, or |s| when there is none. */
  function IndexOf(s: string, c: char): (i: nat)
    ensures i <= |s|
  {
    if s == [] || s[0] == c then 0 else IndexOf(s[1..], c) + 1
  }

  /** IndexOf finds the first occurrence: nothing before it is `c`. */
  lemma {:induction false} IndexOfFirst(s: string, c: char)
    ensures c !in s[..IndexOf(s, c)]
    ensures IndexOf(s, c) < |s| ==> s[IndexOf(s, c)] == c
    decreases |s|
  {
    if s != [] && s[0] != c {
      IndexOfFirst(s[1..], c);
      var j := IndexOf(s[1..], c);
      assert s[..j + 1] == [s[0]] + s[1..][..j];
    }
  }

  /** Reads the whole part of an unsigned decimal left to right: `acc` is
      the value of the digits read so far and `any` says whether there was
      one. A '.' hands over to the fraction; anything else is an error. */
  function ScanWhole(s: string, acc: nat, any: bool): Option<nat>
    decreases |s|
  {
    if s == [] then (if any then Some(acc * Micro) else None)
    else if IsDigit(s[0]) then ScanWhole(s[1..], acc * 10 + DigitValue(s[0]), true)
    else if s[0] == '.' then ScanFrac(s[1..], acc * Micro, Micro / 10, any)
    else None
  }

  /** Reads the fraction digits: `acc` is in millionths and `unit` is what
      the next digit is worth; digits after the sixth are worth nothing. */
  function ScanFrac(s: string, acc: nat, unit: nat, any: bool): Option<nat>
    decreases |s|
  {
    if s == [] then (if any then Some(acc) else None)
    else if IsDigit(s[0]) then ScanFrac(s[1..], acc + DigitValue(s[0]) * unit, unit / 10, true)
    else None
  }

  /** An unsigned decimal `digits[.digits]` with at least one digit, in millionths. */
  function ParseUnsignedMicros(s: string): Option<nat> {
    ScanWhole(s, 0, false)
  }

  /** Reads a run of decimal digits left to right onto `acc`; None at the
      first character that is not a digit. */
  function ScanInt(s: string, acc: nat): (r: Option<nat>)
    decreases |s|
  {
    if s == [] then Some(acc)
    else if IsDigit(s[0]) then ScanInt(s[1..], acc * 10 + DigitValue(s[0]))
    else None
  }

  /** A decimal number with an optional sign, in millionths. */
  function ParseDecimal(s: string): Option<int> {
    if s != [] && (s[0] == '-' || s[0] == '+') then
      match ParseUnsignedMicros(s[1..])
      case Some(m) => var v: int := m; Some(if s[0] == '-' then -v else v)
      case None => None
    else
      match ParseUnsignedMicros(s)
      case Some(m) => Some(m)
      case None => None
  }

  /** QString::toFloat in millionths: surrounding whitespace is ignored and
      text that is not a number reads as 0. */
  function ToFloat(s: string): int {
    match ParseDecimal(Trim(s))
    case Some(v) => v
    case None => 0
  }

  /** QString::toInt: surrounding whitespace is ignored, an optional sign,
      at least one digit, and the value must fit in 32 bits. */
  function ToInt(s: string): (r: Option<int>)
    ensures r.Some? ==> Int32Min <= r.value <= Int32Max
  {
    var t := Trim(s);
    var signed := t != [] && (t[0] == '-' || t[0] == '+');
    var body := if signed then t[1..] else t;
    if body == [] then None
    else
      match ScanInt(body, 0)
      case None => None
      case Some(n) =>
        var v: int := if signed && t[0] == '-' then -(n as int) else n;
        if Int32Min <= v <= Int32Max then Some(v) else None
  }

  /** C++ integer division by a positive divisor (and the float-to-int
      cast after scaling): the quotient rounded toward zero. */
  function TruncDiv(a: int, b: nat): int
    requires b > 0
  {
    if a >= 0 then a / b else -((-a) / b)
  }

  /** The quotient is rounded toward zero: it lies between zero and the
      exact quotient, less than one away from it. */
  lemma TruncDivTowardZero(a: int, b: nat)
    requires b > 0
    ensures var q := TruncDiv(a, b);
      (a >= 0 ==> 0 <= q && q * b <= a < q * b + b) &&
      (a < 0 ==> q <= 0 && q * b - b < a <= q * b)
  {
    if a >= 0 {
      DivBounds(a, b);
    } else {
      DivBounds(-a, b);
    }
  }

  /** Dividing an exact multiple gives the factor back. */
  lemma TruncDivExact(x: int, b: nat)
    requires b > 0
    ensures TruncDiv(x * b, b) == x
  {
    var q := TruncDiv(x * b, b);
    TruncDivTowardZero(x * b, b);
    if x >= 0 { MulLe(0, x, b); } else { MulLe(x, -1, b); }
    if q < x {
      MulLe(q + 1, x, b);
    } else if q > x {
      MulLe(x + 1, q, b);
    }
  }

  lemma MulLe(a: int, c: int, b: nat)
    requires a <= c
    ensures a * b <= c * b
    ensures (a + 1) * b == a * b + b
  {
    var d: nat := c - a;
    assert c * b == a * b + d * b;
  }

  /** A count in thousands, read as millionths of a thousand, gives the
      whole count back. */
  lemma ThousandsBack(q: int)
    ensures TruncDiv(q * Micro, 1000) == q * 1000
  {
    assert q * Micro == (q * 1000) * 1000;
    TruncDivExact(q * 1000, 1000);
  }

  lemma DivBounds(a: nat, b: nat)
    requires b > 0
    ensures 0 <= a / b && (a / b) * b <= a < (a / b) * b + b
  {
  }

  /** A leading digit is worth its value times the weight of its place. */
  lemma {:induction false} ValueOfCons(c: char, d: string)
    requires IsDigit(c) && AllDigits(d)
    ensures AllDigits([c] + d)
    ensures ValueOf([c] + d) == DigitValue(c) * Pow10(|d|) + ValueOf(d)
    decreases |d|
  {
    var s := [c] + d;
    if d != [] {
      var e := d[..|d| - 1];
      assert s[..|s| - 1] == [c] + e;
      ValueOfCons(c, e);
      var p := Pow10(|e|);
      assert 10 * (DigitValue(c) * p) == DigitValue(c) * (10 * p);
    }
  }

  /** Reading a run of digits adds them, in place, to what came before. */
  lemma {:induction false} ScanWholeDigits(d: string, rest: string, acc: nat, any: bool)
    requires AllDigits(d)
    ensures ScanWhole(d + rest, acc, any) == ScanWhole(rest, acc * Pow10(|d|) + ValueOf(d), any || d != [])
    decreases |d|
  {
    if d == [] {
      assert d + rest == rest;
    } else {
      var c, e := d[0], d[1..];
      assert d == [c] + e;
      assert (d + rest)[1..] == e + rest;
      ScanWholeDigits(e, rest, acc * 10 + DigitValue(c), true);
      ValueOfCons(c, e);
      ShiftDigit(acc, DigitValue(c), Pow10(|e|));
    }
  }

  /** Reading fraction digits whose first is worth 10^k adds each digit at
      its place: the digits' value shifted left by the places left over.
      Digits beyond the last place (k + 1 of them fit) are not covered here. */
  lemma {:induction false} ScanFracPlaces(d: string, acc: nat, k: nat, any: bool)
    requires AllDigits(d) && 1 <= |d| <= k + 1
    ensures ScanFrac(d, acc, Pow10(k), any) == Some(acc + ValueOf(d) * Pow10(k + 1 - |d|))
    decreases |d|
  {
    var c, e := d[0], d[1..];
    assert d == [c] + e;
    ValueOfCons(c, e);
    var next := acc + DigitValue(c) * Pow10(k);
    assert ScanFrac(d, acc, Pow10(k), any) == ScanFrac(e, next, Pow10(k) / 10, true);
    if e != [] {
      Pow10Tenth(k - 1);
      ScanFracPlaces(e, next, k - 1, true);
      Pow10Add(|e|, k - |e|);
      PlaceValue(DigitValue(c), ValueOf(e), Pow10(|e|), Pow10(k - |e|));
    }
  }

  lemma {:induction false} Pow10Add(a: nat, b: nat)
    ensures Pow10(a) * Pow10(b) == Pow10(a + b)
    decreases a
  {
    if a > 0 {
      Pow10Add(a - 1, b);
      assert Pow10(a) * Pow10(b) == 10 * (Pow10(a - 1) * Pow10(b));
    }
  }

  lemma PlaceValue(c: nat, v: nat, p: nat, q: nat)
    ensures (c * p + v) * q == c * (p * q) + v * q
  {
    calc {
      (c * p + v) * q;
      (c * p) * q + v * q;
      { assert (c * p) * q == c * (p * q); }
      c * (p * q) + v * q;
    }
  }

  lemma {:induction false} ScanIntDigits(d: string, acc: nat)
    requires AllDigits(d)
    ensures ScanInt(d, acc) == Some(acc * Pow10(|d|) + ValueOf(d))
    decreases |d|
  {
    if d != [] {
      var c, e := d[0], d[1..];
      assert d == [c] + e;
      ScanIntDigits(e, acc * 10 + DigitValue(c));
      ValueOfCons(c, e);
      ShiftDigit(acc, DigitValue(c), Pow10(|e|));
    }
  }

  lemma Pow10Tenth(k: nat)
    ensures Pow10(k + 1) / 10 == Pow10(k)
  {
  }

  lemma ShiftDigit(acc: nat, d: nat, p: nat)
    ensures (acc * 10 + d) * p == acc * (10 * p) + d * p
  {
    calc {
      (acc * 10 + d) * p;
      (acc * 10) * p + d * p;
      { assert (acc * 10) * p == acc * (10 * p); }
      acc * (10 * p) + d * p;
    }
  }

  lemma ParseDigits(n: nat)
    ensures ParseUnsignedMicros(Digits(n)) == Some(n * Micro)
  {
    var d := Digits(n);
    ScanWholeDigits(d, [], 0, false);
    assert d + [] == d;
    ValueOfDigits(n);
  }

  /** Text that starts with a digit is read without a sign. */
  lemma ParseDecimalUnsigned(s: string)
    requires s != [] && IsDigit(s[0])
    ensures ParseDecimal(s) == match ParseUnsignedMicros(s)
      case Some(m) => Some(m as int)
      case None => None
  {
  }

  /** A leading '-' negates what follows it. */
  lemma ParseDecimalMinus(s: string, m: nat)
    requires s != [] && s[0] == '-'
    requires ParseUnsignedMicros(s[1..]) == Some(m)
    ensures ParseDecimal(s) == Some(-(m as int))
  {
  }

  lemma ParseDecimalFormatNegative(x: int)
    requires x < 0
    ensures ParseDecimal(FormatInt(x)) == Some(-((-x) * Micro))
  {
    var n: nat := -x;
    var s := FormatInt(x);
    assert s == "-" + Digits(n);
    assert s[1..] == Digits(n);
    ParseDigits(n);
    ParseDecimalMinus(s, n * Micro);
  }

  lemma ParseDecimalFormatNonNegative(n: nat)
    ensures ParseDecimal(FormatInt(n)) == Some(n * Micro)
  {
    ParseDigits(n);
    ParseDecimalUnsigned(Digits(n));
  }

  lemma NegateMicros(x: int)
    ensures -((-x) * Micro) == x * Micro
  {
  }

  lemma ParseDecimalFormatInt(x: int)
    ensures ParseDecimal(FormatInt(x)) == Some(x * Micro)
  {
    if x < 0 {
      ParseDecimalFormatNegative(x);
      NegateMicros(x);
    } else {
      ParseDecimalFormatNonNegative(x);
    }
  }

  /** toFloat reads back what arg(int) writes. */
  lemma ToFloatFormatInt(x: int)
    ensures ToFloat(FormatInt(x)) == x * Micro
  {
    TrimFixedPoints(FormatInt(x));
    ParseDecimalFormatInt(x);
  }

  /** toFloat reads back what 'f', 6 writes. */
  lemma ToFloatFormatFixed6(m: nat)
    ensures ToFloat(FormatFixed6(m)) == m
  {
    var s := FormatFixed6(m);
    TrimFixedPoints(s);
    ParseUnsignedFixed6(m);
    ParseDecimalUnsigned(s);
  }

  lemma ParseUnsignedFixed6(m: nat)
    ensures ParseUnsignedMicros(FormatFixed6(m)) == Some(m)
  {
    var d := Digits(m / Micro);
    var p := Pad(m % Micro, 6);
    assert FormatFixed6(m) == d + ['.'] + p;
    assert |p| == 6 && Pow10(6) == Micro;
    ParseUnsignedDecimal(d, p);
    ValueOfDigits(m / Micro);
    ValueOfPad(m % Micro, 6);
    assert Pow10(6 - |p|) == 1;
    assert (m / Micro) * Micro + m % Micro == m;
  }

  /** The unsigned reader on `whole.frac` with one to six fraction digits:
      the whole part in millionths plus the fraction scaled up to six places. */
  lemma ParseUnsignedDecimal(w: string, f: string)
    requires AllDigits(w) && AllDigits(f) && 1 <= |f| <= 6
    ensures ParseUnsignedMicros(w + ['.'] + f) == Some(ValueOf(w) * Micro + ValueOf(f) * Pow10(6 - |f|))
  {
    var rest := ['.'] + f;
    assert w + ['.'] + f == w + rest;
    var v := ValueOf(w);
    ScanWholeDigits(w, rest, 0, false);
    assert ScanWhole(w + rest, 0, false) == ScanWhole(rest, v, w != []) by {
      assert 0 * Pow10(|w|) + v == v;
    }
    assert rest[1..] == f;
    assert ScanWhole(rest, v, w != []) == ScanFrac(f, v * Micro, Micro / 10, w != []);
    assert Micro / 10 == Pow10(5);
    ScanFracPlaces(f, v * Micro, 5, w != []);
  }

  /** toFloat on a plain decimal such as "48.85": the whole part and a
      fraction of one to six digits, read exactly in millionths. */
  lemma ToFloatDecimal(w: string, f: string)
    requires AllDigits(w) && AllDigits(f) && w != [] && 1 <= |f| <= 6
    ensures ToFloat(w + ['.'] + f) == ValueOf(w) * Micro + ValueOf(f) * Pow10(6 - |f|)
  {
    var s := w + ['.'] + f;
    assert s[0] == w[0] && s[|s| - 1] == f[|f| - 1];
    TrimFixedPoints(s);
    ParseUnsignedDecimal(w, f);
    ParseDecimalUnsigned(s);
  }

  /** toInt reads back what arg(int) writes, for every 32-bit value. */
  lemma ToIntFormatInt(x: int)
    requires Int32Min <= x <= Int32Max
    ensures ToInt(FormatInt(x)) == Some(x)
  {
    var s := FormatInt(x);
    TrimFixedPoints(s);
    var n: nat := if x < 0 then -x else x;
    var body := Digits(n);
    ValueOfDigits(n);
    ScanIntDigits(body, 0);
    if x < 0 {
      assert s[1..] == body;
      assert s[0] == '-';
    } else {
      assert s == body && IsDigit(s[0]);
    }
  }

  /** toInt on plain digits: their value when it fits in 32 bits, and a
      failure otherwise. */
  lemma ToIntDigits(d: string)
    requires AllDigits(d) && d != []
    ensures ToInt(d) == if ValueOf(d) <= Int32Max then Some(ValueOf(d)) else None
  {
    assert IsDigit(d[0]) && IsDigit(d[|d| - 1]);
    TrimFixedPoints(d);
    ScanIntDigits(d, 0);
  }

  /** A character that can appear in no number, whatever its position. */
  predicate Foreign(c: char) {
    !IsDigit(c) && c != '.' && c != '-' && c != '+' && !IsSpace(c)
  }

  /** Text holding a foreign character is not a number: toFloat reads it as
      0 and toInt fails. */
  lemma ForeignTextFails(s: string, j: int)
    requires 0 <= j < |s| && Foreign(s[j])
    ensures ToFloat(s) == 0 && ToInt(s) == None
  {
    TrimKeeps(s, j);
    var t := Trim(s);
    var k :| 0 <= k < |t| && t[k] == s[j];
    if t[0] == '-' || t[0] == '+' {
      assert t[1..][k - 1] == t[k];
      ScanWholeRejects(t[1..], 0, false, k - 1);
      ScanIntRejects(t[1..], 0, k - 1);
    } else {
      ScanWholeRejects(t, 0, false, k);
      ScanIntRejects(t, 0, k);
    }
  }

  /** Text that is empty or all whitespace: toFloat reads 0 and toInt fails. */
  lemma BlankTextFails(s: string)
    requires forall i :: 0 <= i < |s| ==> IsSpace(s[i])
    ensures ToFloat(s) == 0 && ToInt(s) == None
  {
    TrimStartIsSuffix(s);
    assert Trim(s) == [];
  }

  lemma {:induction false} ScanWholeRejects(s: string, acc: nat, any: bool, j: int)
    requires 0 <= j < |s| && !IsDigit(s[j]) && s[j] != '.'
    ensures ScanWhole(s, acc, any) == None
    decreases |s|
  {
    if j > 0 {
      assert s[1..][j - 1] == s[j];
      if IsDigit(s[0]) {
        ScanWholeRejects(s[1..], acc * 10 + DigitValue(s[0]), true, j - 1);
      } else if s[0] == '.' {
        ScanFracRejects(s[1..], acc * Micro, Micro / 10, any, j - 1);
      }
    }
  }

  lemma {:induction false} ScanFracRejects(s: string, acc: nat, unit: nat, any: bool, j: int)
    requires 0 <= j < |s| && !IsDigit(s[j])
    ensures ScanFrac(s, acc, unit, any) == None
    decreases |s|
  {
    if j > 0 && IsDigit(s[0]) {
      assert s[1..][j - 1] == s[j];
      ScanFracRejects(s[1..], acc + DigitValue(s[0]) * unit, unit / 10, true, j - 1);
    }
  }

  lemma {:induction false} ScanIntRejects(s: string, acc: nat, j: int)
    requires 0 <= j < |s| && !IsDigit(s[j])
    ensures ScanInt(s, acc) == None
    decreases |s|
  {
    if j > 0 && IsDigit(s[0]) {
      assert s[1..][j - 1] == s[j];
      ScanIntRejects(s[1..], acc * 10 + DigitValue(s[0]), j - 1);
    }
  }

}
