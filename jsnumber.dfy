/**
 * The JavaScript number conversions the site applies to text: `parseInt(s, 10)`,
 * `parseFloat(s)` and `Number(s)`, and printing a count in decimal. A finite
 * result is kept as an exact decimal `mantissa * 10^exponent` instead of an
 * IEEE double, within the range of a double: what lies beyond the largest
 * double is an infinity, and what lies below half the least one is zero.
 */
module JsNumber {
  import opened Wrappers
  import Text

  predicate IsDigit(c: char) { '0' <= c <= '9' }

  predicate AllDigits(s: string) { forall i :: 0 <= i < |s| ==> IsDigit(s[i]) }

  function DigitValue(c: char): nat
    requires IsDigit(c)
  {
    c as int - '0' as int
  }

  function DigitChar(d: nat): (c: char)
    requires d < 10
    ensures IsDigit(c) && DigitValue(c) == d
  {
    ('0' as int + d) as char
  }

  /** The value of a string of decimal digits, most significant first. */
  function DigitsValue(ds: string): nat
    requires AllDigits(ds)
  {
    if ds == [] then 0 else DigitsValue(ds[..|ds| - 1]) * 10 + DigitValue(ds[|ds| - 1])
  }

  function Pow10(k: nat): (p: nat)
    ensures p >= 1
  {
    if k == 0 then 1 else 10 * Pow10(k - 1)
  }

  /** A natural number written in decimal, without leading zeros. */
  function NatToString(n: nat): (s: string)
    ensures s != [] && AllDigits(s)
    ensures |s| > 1 ==> s[0] != '0'
  {
    if n < 10 then [DigitChar(n)] else NatToString(n / 10) + [DigitChar(n % 10)]
  }

  /** Reading a printed number gives the number back. */
  lemma {:induction false} ValueOfNatToString(n: nat)
    ensures DigitsValue(NatToString(n)) == n
  {
    if n >= 10 {
      ValueOfNatToString(n / 10);
      var s := NatToString(n);
      assert s[..|s| - 1] == NatToString(n / 10);
    }
  }

  /** Drops leading zeros but keeps at least one digit. */
  function StripLeadingZeros(ds: string): (r: string)
    requires ds != [] && AllDigits(ds)
    ensures r != [] && AllDigits(r) && (|r| > 1 ==> r[0] != '0')
  {
    if |ds| > 1 && ds[0] == '0' then StripLeadingZeros(ds[1..]) else ds
  }

  lemma {:induction false} LeadingZeroValue(rest: string)
    requires AllDigits(rest)
    ensures AllDigits("0" + rest) && DigitsValue("0" + rest) == DigitsValue(rest)
  {
    var s := "0" + rest;
    if rest != [] {
      assert s[..|s| - 1] == "0" + rest[..|rest| - 1];
      LeadingZeroValue(rest[..|rest| - 1]);
    } else {
      assert s[..0] == [];
    }
  }

  lemma {:induction false} PositiveValue(ds: string)
    requires ds != [] && AllDigits(ds) && ds[0] != '0'
    ensures DigitsValue(ds) > 0
  {
    if |ds| > 1 { PositiveValue(ds[..|ds| - 1]); }
  }

  lemma {:induction false} StripLeadingZerosValue(ds: string)
    requires ds != [] && AllDigits(ds)
    ensures DigitsValue(StripLeadingZeros(ds)) == DigitsValue(ds)
  {
    if |ds| > 1 && ds[0] == '0' {
      StripLeadingZerosValue(ds[1..]);
      LeadingZeroValue(ds[1..]);
      assert ds == "0" + ds[1..];
    }
  }

  lemma {:induction false} NatToStringOfCanonical(ds: string)
    requires ds != [] && AllDigits(ds) && (|ds| > 1 ==> ds[0] != '0')
    ensures NatToString(DigitsValue(ds)) == ds
  {
    if |ds| > 1 {
      var xs := ds[..|ds| - 1];
      PositiveValue(xs);
      NatToStringOfCanonical(xs);
      var v := DigitsValue(ds);
      assert v / 10 == DigitsValue(xs) && v % 10 == DigitValue(ds[|ds| - 1]);
      assert ds == xs + [ds[|ds| - 1]];
    }
  }

  /** Printing the value of a digit string gives that string without its
   *  leading zeros. */
  lemma NatToStringOfDigits(ds: string)
    requires ds != [] && AllDigits(ds)
    ensures NatToString(DigitsValue(ds)) == StripLeadingZeros(ds)
  {
    StripLeadingZerosValue(ds);
    NatToStringOfCanonical(StripLeadingZeros(ds));
  }

  /** The longest prefix made of decimal digits. */
  function LeadingDigits(s: string): (r: string)
    ensures r <= s && AllDigits(r)
    ensures |r| == |s| || !IsDigit(s[|r|])
  {
    if s != [] && IsDigit(s[0]) then [s[0]] + LeadingDigits(s[1..]) else ""
  }

  /** The integer `parseInt(s, 10)` reads: leading white space and one
   *  sign are skipped, then the longest run of digits is read; `None` when
   *  no digit follows. */
  function IntegerPrefix(s: string): (r: Option<int>)
    ensures r.None? <==> (var t := Text.TrimStart(s);
                          var u := if t != [] && (t[0] == '+' || t[0] == '-') then t[1..] else t;
                          u == [] || !IsDigit(u[0]))
  {
    var t := Text.TrimStart(s);
    var negative := t != [] && t[0] == '-';
    var u := if t != [] && (t[0] == '+' || t[0] == '-') then t[1..] else t;
    var ds := LeadingDigits(u);
    var v: int := if ds == [] then 0 else DigitsValue(ds);
    if ds == [] then None else Some(if negative then -v else v)
  }

  /** `parseInt(s, 10)`: NaN when no integer leads the text, otherwise that
   *  integer taken into the range of a double, so that one whose magnitude
   *  reaches the overflow boundary is an infinity of its sign. */
  function ParseInt(s: string): (r: Num)
    ensures r == NaN <==> IntegerPrefix(s).None?
    ensures r.Infinity? <==> IntegerPrefix(s).Some? && Magnitude(IntegerPrefix(s).value) >= OverflowBound
    ensures r.Infinity? ==> r.negative == (IntegerPrefix(s).value < 0)
    ensures r.Finite? ==> r == Finite(IntegerPrefix(s).value, 0)
  {
    match IntegerPrefix(s)
    case None => NaN
    case Some(v) => ToDouble(Finite(v, 0))
  }

  /** On a plain digit string `parseInt` gives its value while that is below
   *  the overflow boundary, and positive infinity from there on. */
  lemma ParseIntOfDigits(ds: string)
    requires ds != [] && AllDigits(ds)
    ensures DigitsValue(ds) < OverflowBound ==> ParseInt(ds) == Finite(DigitsValue(ds), 0)
    ensures DigitsValue(ds) >= OverflowBound ==> ParseInt(ds) == Infinity(false)
  {
    IntegerPrefixOfDigits(ds);
  }

  /** A plain digit string is read whole. */
  lemma IntegerPrefixOfDigits(ds: string)
    requires ds != [] && AllDigits(ds)
    ensures IntegerPrefix(ds) == Some(DigitsValue(ds))
  {
    NoSpaceDigit(ds[0]);
    LeadingDigitsOfDigits(ds);
    IntegerPrefixOfUnsigned(ds, ds);
  }

  /** The integer read from text that starts with its digits, with nothing
   *  to skip. */
  lemma IntegerPrefixOfUnsigned(s: string, ds: string)
    requires s != [] && !Text.IsSpace(s[0]) && s[0] != '+' && s[0] != '-'
    requires LeadingDigits(s) == ds && ds != []
    ensures IntegerPrefix(s) == Some(DigitsValue(ds))
  {
    Text.TrimStartFixed(s);
    var t := Text.TrimStart(s);
    assert t == s;
  }

  lemma NoSpaceDigit(c: char)
    requires IsDigit(c)
    ensures !Text.IsSpace(c) && c != '+' && c != '-'
  {
  }

  lemma {:induction false} LeadingDigitsOfDigits(ds: string)
    requires AllDigits(ds)
    ensures LeadingDigits(ds) == ds
  {
    if ds != [] { LeadingDigitsOfDigits(ds[1..]); }
  }

  /** A JavaScript number: NaN, an infinity, or the exact finite decimal
   *  `mantissa * 10^exponent` (the sign of a zero is not kept). */
  datatype Num = NaN | Infinity(negative: bool) | Finite(mantissa: int, exponent: int)

  /** The longest prefix of `s` that is a StrDecimalLiteral, `parseFloat`'s
   *  grammar: an optional sign, then `Infinity` or digits with an optional
   *  fraction and exponent. Gives the value and the prefix's length. */
  function ScanDecimal(s: string): (r: Option<(Num, nat)>)
    ensures r.Some? ==> r.value.1 <= |s| && r.value.0 != NaN
  {
    var signLen := if s != [] && (s[0] == '+' || s[0] == '-') then 1 else 0;
    var negative := signLen == 1 && s[0] == '-';
    var u := if signLen == 1 then s[1..] else s;
    if "Infinity" <= u then Some((Infinity(negative), signLen + 8))
    else match ScanUnsigned(u)
      case None => None
      case Some((mantissa, exp, len)) =>
        var v: int := mantissa;
        Some((Finite(if negative then -v else v, exp), signLen + len))
  }

  /** A text that starts with a digit scans as its unsigned decimal. */
  lemma ScanDecimalDigitFirst(s: string, m: nat, e: int, n: nat)
    requires s != [] && IsDigit(s[0]) && ScanUnsigned(s) == Some((m, e, n))
    ensures ScanDecimal(s) == Some((Finite(m, e), n))
  {
    NotInfinity(s);
  }

  /** A minus sign before a digit negates the unsigned decimal and adds
   *  one to its length. */
  lemma ScanDecimalMinus(s: string, m: nat, e: int, n: nat)
    requires |s| >= 2 && s[0] == '-' && IsDigit(s[1])
    requires ScanUnsigned(s[1..]) == Some((m, e, n))
    ensures ScanDecimal(s).Some?
    ensures ScanDecimal(s).value.0 == Finite(-(m as int), e)
    ensures ScanDecimal(s).value.1 == n + 1
  {
    NotInfinity(s[1..]);
  }

  lemma NotInfinity(u: string)
    requires u != [] && u[0] != 'I'
    ensures !("Infinity" <= u)
  {
    assert "Infinity"[0] == 'I';
  }

  /** Digits with an optional fraction and exponent, unsigned: the digits
   *  as one integer, the power of ten that scales it, and the length. */
  function ScanUnsigned(u: string): (r: Option<(nat, int, nat)>)
    ensures r.Some? ==> r.value.2 <= |u|
  {
    var whole := LeadingDigits(u);
    var hasPoint := |whole| < |u| && u[|whole|] == '.';
    var frac := if hasPoint then LeadingDigits(u[|whole| + 1..]) else "";
    if whole == [] && frac == [] then None
    else
      var m := |whole| + (if hasPoint then 1 + |frac| else 0);
      var (exp, expLen) := ScanExponent(u[m..]);
      Some((DigitsValue(whole + frac), exp - |frac|, m + expLen))
  }

  /** An optional ExponentPart `e`/`E`, sign, digits: its value and length
   *  (0 when there is none). */
  function ScanExponent(s: string): (r: (int, nat))
    ensures r.1 <= |s|
    ensures r.1 == 0 ==> r.0 == 0
  {
    if s != [] && (s[0] == 'e' || s[0] == 'E') then
      var signLen := if |s| > 1 && (s[1] == '+' || s[1] == '-') then 1 else 0;
      var ds := LeadingDigits(s[1 + signLen..]);
      if ds == [] then (0, 0)
      else
        var v: int := DigitsValue(ds);
        (if signLen == 1 && s[1] == '-' then -v else v, 1 + signLen + |ds|)
    else (0, 0)
  }

  // ---- The range of a double.

  function Pow2(k: nat): (p: nat)
    ensures p >= 1
  {
    if k == 0 then 1 else 2 * Pow2(k - 1)
  }

  /** The least magnitude that rounds to an infinity: halfway between the
   *  largest double, `(2^53 - 1) * 2^971`, and `2^1024`, that is
   *  `2^1024 - 2^970`; the tie itself rounds to the even `2^1024`. */
  const OverflowBound: nat := Pow2(970) * (Pow2(54) - 1)

  /** `2^1075`: a magnitude of at most `2^-1075`, half the least subnormal
   *  double, rounds to zero (the tie goes to the even zero). */
  const UnderflowScale: nat := Pow2(1075)

  function Magnitude(m: int): nat {
    if m < 0 then -m else m
  }

  /** `|m * 10^e|` is at least `OverflowBound`. */
  predicate Overflows(m: int, e: int) {
    if e >= 0 then Magnitude(m) * Pow10(e) >= OverflowBound
    else Magnitude(m) >= OverflowBound * Pow10(-e)
  }

  /** `m * 10^e` is not zero but its magnitude is at most `2^-1075`. */
  predicate Underflows(m: int, e: int) {
    m != 0 && e < 0 && Magnitude(m) * UnderflowScale <= Pow10(-e)
  }

  /** The double that the exact decimal value of a numeric literal rounds
   *  to, as far as the range goes: beyond the largest double it is the
   *  infinity of its sign, below the least subnormal it is zero, and
   *  otherwise the exact decimal is kept. */
  function ToDouble(v: Num): (r: Num)
    ensures r == NaN <==> v == NaN
    ensures v.Infinity? ==> r == v
    ensures v.Finite? ==> (r.Infinity? <==> Overflows(v.mantissa, v.exponent))
    ensures v.Finite? && r.Infinity? ==> r.negative == (v.mantissa < 0)
    ensures v.Finite? && r.Finite? ==> r == v || (Underflows(v.mantissa, v.exponent) && r == Finite(0, 0))
  {
    match v
    case Finite(m, e) =>
      if Overflows(m, e) then Infinity(m < 0)
      else if Underflows(m, e) then Finite(0, 0)
      else v
    case _ => v
  }

  lemma {:induction false} Pow2Add(a: nat, b: nat)
    ensures Pow2(a + b) == Pow2(a) * Pow2(b)
  {
    if a > 0 { Pow2Add(a - 1, b); }
  }

  lemma {:induction false} Pow10Add(a: nat, b: nat)
    ensures Pow10(a + b) == Pow10(a) * Pow10(b)
  {
    if a > 0 { Pow10Add(a - 1, b); }
  }

  lemma Pow10Monotone(a: nat, b: nat)
    requires a <= b
    ensures Pow10(a) <= Pow10(b)
  {
    Pow10Add(a, b - a);
  }

  lemma Pow2Values()
    ensures Pow2(52) == 4503599627370496
    ensures Pow2(93) == 9903520314283042199192993792
  {
    assert Pow2(4) == 16;
    Pow2Add(4, 4);
    assert Pow2(8) == 256;
    Pow2Add(8, 8);
    assert Pow2(16) == 65536;
    Pow2Add(16, 16);
    assert Pow2(32) == 4294967296;
    Pow2Add(32, 16);
    assert Pow2(48) == 281474976710656;
    Pow2Add(48, 4);
    Pow2Add(32, 32);
    assert Pow2(64) == 18446744073709551616;
    Pow2Add(64, 16);
    assert Pow2(80) == 1208925819614629174706176;
    Pow2Add(80, 8);
    assert Pow2(88) == 309485009821345068724781056;
    Pow2Add(88, 4);
    assert Pow2(92) == 4951760157141521099596496896;
    Pow2Add(92, 1);
  }

  lemma Pow10Values()
    ensures Pow10(16) == 10000000000000000
    ensures Pow10(28) == 10000000000000000000000000000
  {
    assert Pow10(4) == 10000;
    Pow10Add(4, 4);
    assert Pow10(8) == 100000000;
    Pow10Add(8, 8);
    assert Pow10(16) == 10000000000000000;
    Pow10Add(16, 8);
    assert Pow10(24) == 1000000000000000000000000;
    Pow10Add(24, 4);
  }

  lemma MulLess(a: nat, b: nat, c: nat, d: nat)
    requires a < b && 1 <= c < d
    ensures a * c < b * d
  {
    assert a * c <= a * d;
  }

  /** `2^93 < 10^28`, and so for every multiple of those exponents. */
  lemma {:induction false} Pow2BelowPow10(k: nat, a: nat, b: nat)
    requires k >= 1 && a == 93 * k && b == 28 * k
    ensures Pow2(a) < Pow10(b)
  {
    if k == 1 {
      Pow2BelowPow10Once();
    } else {
      Pow2BelowPow10(k - 1, a - 93, b - 28);
      PowersStep(a - 93, b - 28);
    }
  }

  lemma Pow2BelowPow10Once()
    ensures Pow2(93) < Pow10(28)
  {
    Pow2Values();
    Pow10Values();
  }

  lemma PowersStep(a: nat, b: nat)
    requires Pow2(a) < Pow10(b)
    ensures Pow2(a + 93) < Pow10(b + 28)
  {
    Pow2BelowPow10Once();
    Pow2Add(a, 93);
    Pow10Add(b, 28);
    MulLess(Pow2(a), Pow10(b), Pow2(93), Pow10(28));
  }

  /** Where the range of a double lies in powers of ten: every magnitude
   *  below `10^9` stays finite, every one from `10^309` on overflows, and
   *  the underflow threshold `2^-1075` lies above `10^-324`. */
  lemma DoubleRange()
    ensures Pow10(9) < OverflowBound < Pow10(309)
    ensures UnderflowScale < Pow10(324)
  {
    OverflowAboveBillion();
    OverflowBelow309();
    UnderflowBelow324();
  }

  lemma OverflowAboveBillion()
    ensures Pow10(9) < OverflowBound && Pow10(9) < Pow2(54)
  {
    Pow2Values();
    Pow2Add(52, 2);
    var p := Pow2(54) - 1;
    assert p > 1000000000;
    assert Pow2(970) * p >= p;
    assert Pow10(9) == 1000000000;
  }

  lemma OverflowBelow309()
    ensures OverflowBound < Pow10(309)
  {
    var n, k := 970, 54;
    Pow2Add(n, k);
    LessThanProduct(Pow2(n), Pow2(k));
    assert OverflowBound < Pow2(n + k);
    var j, a := 1023, 308;
    Pow2BelowPow10(11, 1023, 308);
    assert Pow2(j) < Pow10(a);
    Pow2Add(j, 1);
    Pow10Add(a, 1);
    ProductBelow(Pow2(j + 1), Pow10(a + 1), Pow2(j), Pow10(a), Pow2(1), Pow10(1));
  }

  lemma LessThanProduct(a: nat, b: nat)
    requires a >= 1 && b >= 1
    ensures a * (b - 1) < a * b
  {
  }

  lemma UnderflowBelow324()
    ensures UnderflowScale < Pow10(324)
  {
    var n, m := 1023, 52;
    var a, b := 308, 16;
    Pow2BelowPow10(11, 1023, 308);
    assert Pow2(n) < Pow10(a);
    Pow2Add(n, m);
    Pow10Add(a, b);
    Pow2Below16Digits();
    ProductBelow(Pow2(n + m), Pow10(a + b), Pow2(n), Pow10(a), Pow2(m), Pow10(b));
  }

  lemma ProductBelow(x: nat, y: nat, a: nat, b: nat, c: nat, d: nat)
    requires x == a * c && y == b * d && a < b && 1 <= c < d
    ensures x < y
  {
    MulLess(a, b, c, d);
  }

  lemma Pow2Below16Digits()
    ensures Pow2(52) < Pow10(16)
  {
    Pow2Values();
    Pow10Values();
  }

  lemma UnderflowAboveBillion()
    ensures Pow10(9) < UnderflowScale
  {
    var n, k := 1021, 54;
    Pow2Add(n, k);
    OverflowAboveBillion();
    assert Pow10(9) < Pow2(k);
    AtLeastFactor(Pow2(n + k), Pow2(n), Pow2(k));
  }

  lemma AtLeastFactor(x: nat, a: nat, b: nat)
    requires x == a * b && a >= 1
    ensures x >= b
  {
  }

  lemma ProductAtLeast(a: nat, b: nat)
    requires a >= 1
    ensures a * b >= b && b * a >= b
  {
  }

  /** A decimal of at most nine digits and at most nine places after the
   *  point is a double as it is written. */
  lemma DoubleKept(m: int, e: int)
    requires e >= -9 && Magnitude(m) * Pow10(if e > 0 then e else 0) <= Pow10(9)
    ensures ToDouble(Finite(m, e)) == Finite(m, e)
  {
    DoubleRange();
    var a := Magnitude(m);
    if e < 0 {
      var p := Pow10(-e);
      ProductAtLeast(p, OverflowBound);
      assert a <= Pow10(9) by { assert Pow10(0) == 1; }
      assert !Overflows(m, e);
      if m != 0 {
        UnderflowAboveBillion();
        ProductAtLeast(a, UnderflowScale);
        Pow10Monotone(-e, 9);
        assert !Underflows(m, e);
      }
    } else {
      assert !Overflows(m, e);
    }
  }

  /** Every non-zero decimal from `10^309` on overflows. */
  lemma OverflowFrom309(m: int, e: int)
    requires m != 0 && e >= 309
    ensures Overflows(m, e)
  {
    DoubleRange();
    Pow10Monotone(309, e);
    ProductAtLeast(Magnitude(m), Pow10(e));
  }

  lemma ScaledBelow(a: nat, u: nat, q: nat, p: nat)
    requires a < 10 && u < q && q * 10 <= p
    ensures a * u <= p
  {
    assert a * u <= 10 * u;
  }

  lemma UnderflowBeyond(m: int, e: int, k: nat)
    requires m != 0 && Magnitude(m) < 10 && UnderflowScale < Pow10(k) && e <= -(k + 1)
    ensures Underflows(m, e)
  {
    Pow10Monotone(k + 1, -e);
    ScaledBelow(Magnitude(m), UnderflowScale, Pow10(k), Pow10(-e));
  }

  /** A one-digit mantissa scaled by `10^-325` or less underflows. */
  lemma UnderflowFrom325(m: int, e: int)
    requires m != 0 && Magnitude(m) < 10 && e <= -325
    ensures Underflows(m, e) && !Overflows(m, e)
  {
    DoubleRange();
    UnderflowBeyond(m, e, 324);
    OverflowAboveBillion();
    ProductAtLeast(Pow10(-e), OverflowBound);
    assert !Overflows(m, e);
  }

  /** `parseFloat(s)`: leading white space skipped, then the longest
   *  decimal-literal prefix, rounded into the range of a double;
   *  otherwise NaN. */
  function ParseFloat(s: string): (r: Num)
    ensures r == NaN <==> ScanDecimal(Text.TrimStart(s)).None?
    ensures r != NaN ==> r == ToDouble(ScanDecimal(Text.TrimStart(s)).value.0)
  {
    match ScanDecimal(Text.TrimStart(s))
    case None => NaN
    case Some((v, _)) => ToDouble(v)
  }

  /** `parseFloat` of a text whose decimal prefix is a short decimal
   *  returns that decimal unchanged. */
  lemma ParseFloatKept(s: string, m: int, e: int, n: nat)
    requires ScanDecimal(Text.TrimStart(s)) == Some((Finite(m, e), n))
    requires e >= -9 && Magnitude(m) * Pow10(if e > 0 then e else 0) <= Pow10(9)
    ensures ParseFloat(s) == Finite(m, e)
  {
    DoubleKept(m, e);
  }

  /** `parseFloat` of a non-zero decimal from `10^309` on is an infinity of
   *  its sign. */
  lemma ParseFloatOverflow(s: string, m: int, e: int, n: nat)
    requires ScanDecimal(Text.TrimStart(s)) == Some((Finite(m, e), n))
    requires m != 0 && e >= 309
    ensures ParseFloat(s) == Infinity(m < 0)
  {
    OverflowFrom309(m, e);
  }

  /** `parseFloat` of a one-digit decimal scaled by `10^-325` or less is
   *  zero. */
  lemma ParseFloatUnderflow(s: string, m: int, e: int, n: nat)
    requires ScanDecimal(Text.TrimStart(s)) == Some((Finite(m, e), n))
    requires m != 0 && Magnitude(m) < 10 && e <= -325
    ensures ParseFloat(s) == Finite(0, 0)
  {
    UnderflowFrom325(m, e);
  }

  /** `Number(s)`: the trimmed text must be empty (zero), a whole decimal
   *  literal, or a `0x`/`0o`/`0b` integer; anything else is NaN. */
  function ToNumber(s: string): (r: Num)
    ensures Text.Trim(s) == [] ==> r == Finite(0, 0)
  {
    var t := Text.Trim(s);
    if t == [] then Finite(0, 0)
    else match ScanDecimal(t)
      case Some((v, n)) =>
        if n == |t| then ToDouble(v) else NonDecimal(t)
      case None => NonDecimal(t)
  }

  function RadixDigit(c: char, radix: nat): Option<nat> {
    var d :=
      if '0' <= c <= '9' then c as int - '0' as int
      else if 'a' <= c <= 'f' then c as int - 'a' as int + 10
      else if 'A' <= c <= 'F' then c as int - 'A' as int + 10
      else 99;
    if d < radix then Some(d) else None
  }

  function RadixValue(ds: string, radix: nat): Option<nat> {
    if ds == [] then Some(0)
    else
      match (RadixValue(ds[..|ds| - 1], radix), RadixDigit(ds[|ds| - 1], radix))
      case (Some(v), Some(d)) => Some(v * radix + d)
      case _ => None
  }

  /** A NonDecimalIntegerLiteral: `0x`, `0o` or `0b` (either case) and at
   *  least one digit of that radix, with no sign. */
  function NonDecimal(t: string): Num {
    if |t| > 2 && t[0] == '0' then
      var radix := if t[1] in "xX" then 16 else if t[1] in "oO" then 8 else if t[1] in "bB" then 2 else 0;
      if radix == 0 then NaN
      else match RadixValue(t[2..], radix)
        case Some(v) => ToDouble(Finite(v, 0))
        case None => NaN
    else NaN
  }

  /** `!Number.isNaN(v) && v > 0`. */
  predicate IsPositive(v: Num) {
    match v
    case NaN => false
    case Infinity(negative) => !negative
    case Finite(m, _) => m > 0
  }

  /** `m * 10^k`. */
  function Shift(m: nat, k: nat): nat {
    if k == 0 then m else 10 * Shift(m, k - 1)
  }

  /** `m / 10^k`, rounded down. */
  function Unshift(m: nat, k: nat): nat {
    if k == 0 then m else Unshift(m / 10, k - 1)
  }

  /** `Math.floor` of the non-negative decimal `m * 10^e`. */
  function Floor(m: nat, e: int): nat {
    if e >= 0 then Shift(m, e) else Unshift(m, -e)
  }

  /** `x % 1 >= 0.5` for the non-negative decimal `x = m * 10^e`: the first
   *  digit after the point is at least 5. */
  predicate FractionAtLeastHalf(m: nat, e: int) {
    e < 0 && Unshift(m, -e - 1) % 10 >= 5
  }

  lemma {:induction false} ShiftIsProduct(m: nat, k: nat)
    ensures Shift(m, k) == m * Pow10(k)
  {
    if k > 0 {
      ShiftIsProduct(m, k - 1);
      assert m * Pow10(k) == 10 * (m * Pow10(k - 1));
    }
  }

  lemma {:induction false} UnshiftBounds(m: nat, k: nat)
    ensures Unshift(m, k) * Pow10(k) <= m < (Unshift(m, k) + 1) * Pow10(k)
  {
    if k > 0 {
      var q := Unshift(m / 10, k - 1);
      var p := Pow10(k - 1);
      UnshiftBounds(m / 10, k - 1);
      ScaleBounds(m, m / 10, q, p);
    }
  }

  /** Bounds on `m / 10` by multiples of `p` scale to bounds on `m` by
   *  multiples of `10 * p`. */
  lemma ScaleBounds(m: int, a: int, q: int, p: int)
    requires 10 * a <= m < 10 * a + 10 && q * p <= a < (q + 1) * p
    ensures q * (10 * p) <= m < (q + 1) * (10 * p)
  {
    assert q * (10 * p) == 10 * (q * p);
    assert (q + 1) * (10 * p) == 10 * ((q + 1) * p);
  }

  /** `Floor` is the integer part of `m * 10^e`, and `FractionAtLeastHalf`
   *  says that what remains is at least one half, both as exact arithmetic
   *  on `m` and the power of ten. */
  lemma FloorAndFraction(m: nat, e: int)
    ensures e >= 0 ==> Floor(m, e) == m * Pow10(e) && !FractionAtLeastHalf(m, e)
    ensures e < 0 ==> var p := Pow10(-e);
                      Floor(m, e) * p <= m < (Floor(m, e) + 1) * p
                      && (FractionAtLeastHalf(m, e) <==> 2 * (m - Floor(m, e) * p) >= p)
  {
    if e >= 0 {
      ShiftIsProduct(m, e);
    } else {
      var k := -e;
      var p1 := Pow10(k - 1);
      UnshiftBounds(m, k);
      UnshiftBounds(m, k - 1);
      UnshiftStep(m, k - 1);
      var g := Unshift(m, k - 1);
      HalfDigit(m, p1, g, g / 10, g % 10);
    }
  }

  /** The arithmetic behind `FloorAndFraction`: with `m = g * p1 + r`,
   *  `0 <= r < p1` and `g = 10 * f + d`, the remainder of `m` after `f`
   *  tens of `p1` is at least half of `10 * p1` exactly when `d >= 5`. */
  lemma HalfDigit(m: int, p1: int, g: int, f: int, d: int)
    requires p1 >= 1 && 0 <= d < 10 && g == 10 * f + d
    requires g * p1 <= m < (g + 1) * p1
    ensures 2 * (m - f * (10 * p1)) >= 10 * p1 <==> d >= 5
  {
    var r := m - g * p1;
    assert m - f * (10 * p1) == d * p1 + r;
    if d >= 5 {
      assert d * p1 >= 5 * p1;
    } else {
      assert d * p1 <= 4 * p1;
    }
  }

  lemma {:induction false} UnshiftStep(m: nat, k: nat)
    ensures Unshift(m, k + 1) == Unshift(m, k) / 10
  {
    if k > 0 { UnshiftStep(m / 10, k - 1); }
  }

  /** `Number` of a plain digit string is its value. */
  lemma ToNumberOfDigits(ds: string)
    requires ds != [] && AllDigits(ds) && DigitsValue(ds) < OverflowBound
    ensures ToNumber(ds) == Finite(DigitsValue(ds), 0)
  {
    assert !Text.IsSpace(ds[0]) && !Text.IsSpace(ds[|ds| - 1]);
    Text.TrimFixed(ds);
    ScanDecimalOfDigits(ds);
  }

  /** A plain digit string is one whole decimal literal. */
  lemma ScanDecimalOfDigits(ds: string)
    requires ds != [] && AllDigits(ds)
    ensures ScanDecimal(ds) == Some((Finite(DigitsValue(ds), 0), |ds|))
  {
    LeadingDigitsOfDigits(ds);
    assert ds[0] != '+' && ds[0] != '-';
    assert ds[0..] == ds;
    assert !("Infinity" <= ds) by { assert "Infinity"[0] != ds[0]; }
    assert ds[|ds|..] == [];
    assert ds + "" == ds;
  }

  /** `Number` of text that starts with a lower-case letter, such as
   *  `invalid`, is NaN. */
  lemma ToNumberOfWord(s: string)
    requires s != [] && 'a' <= s[0] <= 'z'
    ensures ToNumber(s) == NaN
  {
    var t := Text.Trim(s);
    Text.TrimStartFixed(s);
    assert t != [] && t[0] == s[0] by {
      assert !Text.IsSpace(s[0]);
      Text.TrimMeaning(s);
      assert t == s[0..|t|];
    }
    WordIsNotDecimal(t);
  }

  lemma WordIsNotDecimal(t: string)
    requires t != [] && 'a' <= t[0] <= 'z'
    ensures ScanDecimal(t).None? && NonDecimal(t) == NaN
  {
    assert t[0..] == t;
    assert !("Infinity" <= t) by { assert "Infinity"[0] != t[0]; }
    assert LeadingDigits(t) == "";
  }

  /** A finite count's `Floor` is the count itself. */
  lemma FloorOfWhole(m: nat)
    ensures Floor(m, 0) == m
  {
  }
}
