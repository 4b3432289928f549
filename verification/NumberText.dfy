/** Numbers through the JSON encoder. */
module NumberTexts {
  import opened Arith
  import opened Bytes
  import opened Digits
  import opened Doubles
  import opened Pow5s
  import opened Decimals
  import opened Dtoa
  import opened GFmt
  import JsonStrings
  import opened JsonValues
  import opened JsonNumbers
  import JsonParser

  const MINUS: Byte := 45
  const POINT: Byte := 46
  const EXPONENT: Byte := 101

  function Code(c: char): Byte {
    c as int % 256
  }

  /** The bytes of a text of ASCII characters. */
  function Codes(t: string): (l: seq<Byte>)
    ensures |l| == |t| && forall i :: 0 <= i < |t| ==> l[i] == Code(t[i])
  {
    seq(|t|, i requires 0 <= i < |t| => Code(t[i]))
  }

  lemma CodesConcat(a: string, b: string)
    ensures Codes(a + b) == Codes(a) + Codes(b)
  {
  }

  /** The bytes of digits. */
  function DigitCodes(ds: seq<Digit>): (l: seq<Byte>)
    ensures |l| == |ds| && forall i :: 0 <= i < |ds| ==> IsDigit(l[i]) && l[i] == 48 + (ds[i] as int)
  {
    seq(|ds|, i requires 0 <= i < |ds| => 48 + (ds[i] as int))
  }

  lemma TextCodes(ds: seq<Digit>)
    ensures Codes(Text(ds)) == DigitCodes(ds)
  {
    forall i | 0 <= i < |ds|
      ensures Codes(Text(ds))[i] == DigitCodes(ds)[i]
    {
      assert Text(ds)[i] == DigitChar(ds[i]);
    }
  }

  /** Where digits stand that no digit follows, they are the digits that are read. */
  lemma DigitsRead(l: seq<Byte>, a: seq<Byte>, ds: seq<Digit>, b: seq<Byte>)
    requires l == a + DigitCodes(ds) + b && !(b != [] && IsDigit(b[0]))
    ensures DigitsEnd(l, |a|) == |a| + |ds|
  {
    var e := |a| + |ds|;
    assert forall k: nat :: |a| <= k < e ==> l[k] == DigitCodes(ds)[k - |a|] && IsDigit(JsonStrings.At(l, k));
    assert b != [] ==> l[e] == b[0];
    assert !IsDigit(JsonStrings.At(l, e));
  }

  /** Sign, whole digits, point and fraction. */
  function SignCodes(sign: bool): seq<Byte> {
    if sign then [MINUS] else []
  }

  function FractionCodes(fraction: seq<Digit>): seq<Byte> {
    if fraction == [] then [] else [POINT] + DigitCodes(fraction)
  }

  function ExponentCodes(negative: bool, es: seq<Digit>): seq<Byte> {
    if es == [] then [] else [EXPONENT, if negative then MINUS else 43] + DigitCodes(es)
  }

  function NumberCodes(sign: bool, whole: seq<Digit>, fraction: seq<Digit>, negative: bool, es: seq<Digit>): seq<Byte> {
    SignCodes(sign) + DigitCodes(whole) + FractionCodes(fraction) + ExponentCodes(negative, es)
  }

  /** The bytes of a text of the shape of a JSON number. */
  lemma ShapedCodes(t: string) returns (sign: bool, whole: seq<Digit>, fraction: seq<Digit>, negative: bool, es: seq<Digit>)
    requires Shaped(t)
    ensures WholeShape(whole) && Codes(t) == NumberCodes(sign, whole, fraction, negative, es)
  {
    var e: string;
    sign, whole, fraction, e :| t == Parts(sign, whole, fraction, e) && WholeShape(whole) && ExponentShape(e);
    negative, es := ExponentBytes(e);
    PartsBytes(sign, whole, fraction, e);
  }

  lemma ExponentBytes(e: string) returns (negative: bool, es: seq<Digit>)
    requires ExponentShape(e)
    ensures Codes(e) == ExponentCodes(negative, es)
  {
    if e == "" {
      return false, [];
    }
    negative, es :| es != [] && e == ExponentText(negative, es);
    TextCodes(es);
    var h := "e" + (if negative then "-" else "+");
    hide Text, DigitCodes, Codes;
    CodesConcat(h, Text(es));
    assert Codes(h) == [EXPONENT, if negative then MINUS else 43];
  }

  lemma PartsBytes(sign: bool, whole: seq<Digit>, fraction: seq<Digit>, e: string)
    ensures Codes(Parts(sign, whole, fraction, e)) ==
      SignCodes(sign) + DigitCodes(whole) + FractionCodes(fraction) + Codes(e)
  {
    hide Text, DigitCodes, Codes, Mantissa, FractionCodes;
    var m := Mantissa(whole, fraction);
    MantissaBytes(whole, fraction);
    CodesConcat(m, e);
    CodesConcat("-", m + e);
    assert Codes("-") == [MINUS];
    var w, f := DigitCodes(whole), FractionCodes(fraction);
    assert [MINUS] + ((w + f) + Codes(e)) == [MINUS] + w + f + Codes(e);
    assert [] + w == w;
  }

  lemma MantissaBytes(whole: seq<Digit>, fraction: seq<Digit>)
    ensures Codes(Mantissa(whole, fraction)) == DigitCodes(whole) + FractionCodes(fraction)
  {
    hide Text, DigitCodes, Codes;
    TextCodes(whole);
    TextCodes(fraction);
    CodesConcat(".", Text(fraction));
    assert Codes(".") == [POINT] && Codes("") == [];
    CodesConcat(Text(whole), if fraction == [] then "" else "." + Text(fraction));
  }

  lemma MantissaRead(l: seq<Byte>, sign: bool, whole: seq<Digit>, fraction: seq<Digit>, e: seq<Byte>)
    requires whole != [] && !(e != [] && (IsDigit(e[0]) || e[0] == POINT))
    requires l == SignCodes(sign) + DigitCodes(whole) + FractionCodes(fraction) + e
    ensures MantissaEnd(l, 0) == |l| - |e|
  {
    hide DigitsEnd, DigitCodes, IsDigit;
    var a, w := SignCodes(sign), DigitCodes(whole);
    var f := FractionCodes(fraction);
    var n := |a| + |w|;
    assert l == a + w + (f + e);
    DigitsRead(l, a, whole, f + e) by { PointNoDigit(); }
    SignSkipped(l, sign, whole, f + e);
    if fraction == [] {
      assert e != [] ==> l[n] == e[0];
    } else {
      assert l[n] == POINT;
      assert l == (a + w + [POINT]) + DigitCodes(fraction) + e;
      DigitsRead(l, a + w + [POINT], fraction, e);
    }
  }

  lemma PointNoDigit()
    ensures !IsDigit(POINT) && !IsDigit(EXPONENT) && !IsSign(POINT)
  {
  }

  /** In front of the whole digits there is the sign or nothing. */
  lemma SignSkipped(l: seq<Byte>, sign: bool, whole: seq<Digit>, rest: seq<Byte>)
    requires whole != [] && l == SignCodes(sign) + DigitCodes(whole) + rest
    ensures var q := SkipSign(l, 0);
            q == |SignCodes(sign)| < |l| && l[q] == 48 + (whole[0] as int) && (|whole| > 1 ==> q + 1 < |l| && IsDigit(l[q + 1]))
    ensures l[0] == MINUS || IsDigit(l[0])
    ensures |whole| == 1 ==> JsonStrings.At(l, SkipSign(l, 0) + 1) == if rest == [] then 0 else rest[0]
  {
    var q := |SignCodes(sign)|;
    assert l[q] == DigitCodes(whole)[0];
    assert |whole| > 1 ==> l[q + 1] == DigitCodes(whole)[1];
  }

  lemma ExponentRead(l: seq<Byte>, m: seq<Byte>, negative: bool, es: seq<Digit>)
    requires l == m + ExponentCodes(negative, es)
    ensures ExponentEnd(l, |m|) == |l|
  {
    if es != [] {
      var h: seq<Byte> := [EXPONENT, if negative then MINUS else 43];
      assert l == (m + h) + DigitCodes(es) + [];
      DigitsRead(l, m + h, es, []);
      assert l[|m|] == h[0] && l[|m| + 1] == h[1];
    }
  }

  /** What is written for a number is a decimal in the sense of the parser, without a needless zero. */
  lemma ShapedDecimal(t: string)
    requires Shaped(t)
    ensures var l := Codes(t); IsDecimal(l) && !LeadingZero(l) && l[0] != POINT
  {
    var sign, whole, fraction, negative, es := ShapedCodes(t);
    NumberDecimal(Codes(t), sign, whole, fraction, negative, es);
  }

  lemma NumberDecimal(l: seq<Byte>, sign: bool, whole: seq<Digit>, fraction: seq<Digit>, negative: bool, es: seq<Digit>)
    requires WholeShape(whole) && l == NumberCodes(sign, whole, fraction, negative, es)
    ensures IsDecimal(l) && !LeadingZero(l) && l[0] != POINT
  {
    hide DigitsEnd, DigitCodes, IsDigit, SkipSign, MantissaEnd, ExponentEnd;
    var f, e := FractionCodes(fraction), ExponentCodes(negative, es);
    var m := l[..|l| - |e|];
    PointNoDigit();
    NoZeroByte(sign, whole, fraction, negative, es);
    assert l == SignCodes(sign) + DigitCodes(whole) + (f + e);
    SignSkipped(l, sign, whole, f + e);
    MantissaRead(l, sign, whole, fraction, e);
    ExponentRead(l, m, negative, es);
    NoDigitBytes();
  }

  lemma NoDigitBytes()
    ensures !IsDigit(0) && !IsDigit(POINT) && !IsDigit(43)
  {
  }

  lemma NoZeroByte(sign: bool, whole: seq<Digit>, fraction: seq<Digit>, negative: bool, es: seq<Digit>)
    ensures 0 !in NumberCodes(sign, whole, fraction, negative, es)
  {
    NoZeroDigits(whole);
    NoZeroDigits(fraction);
    NoZeroDigits(es);
    hide DigitCodes;
  }

  lemma NoZeroDigits(ds: seq<Digit>)
    ensures 0 !in DigitCodes(ds)
  {
  }

  /** The text of a number passes printing and parsing unchanged, in the strict mode of the parser too. */
  lemma ShapedOk(cfg: Config, t: string)
    requires Shaped(t) && forall d: seq<Byte>, p: nat :: cfg.num(d, p) == DecimalEnd(d, p)
    ensures ValueOk(cfg, Num(Codes(t)))
  {
    hide Shaped, DecimalEnd, NumOk, IsDecimal;
    ShapedDecimal(t);
    DecimalsOk(cfg, Codes(t));
  }

  /** A double that is encoded and decoded: the parser reads all of its text, which is the double rounded to the
      precision. */
  method EncodeNumber(cfg: Config, L: Pow5List, d: Double, negative: bool, precision: int, k0: int, kCheck: bool)
      returns (b: string, r: JsonParser.Result, ghost k: int)
    requires L.Valid() && d.Finite()
    requires FirstPlace(d, k0) || (kCheck && FirstPlace(d, k0 - 1))
    requires forall t: seq<Byte>, p: nat :: cfg.num(t, p) == DecimalEnd(t, p)
    modifies L, L.Cells`next
    ensures L.Valid() && old(L.Nodes) <= L.Nodes
    ensures r == JsonParser.Value(Num(Codes(b))) && FirstPlace(d, k) && Read(b).negative == negative
    ensures IsRounded(Exact(d), LiteralValue(Read(b)), k + 1 - Max(precision, 1))
    ensures precision >= 1 ==> forall n: nat :: n < Pow(10, precision) && Exact(d) == n as real ==>
      b == (if negative then "-" else "") + NatText(n)
  {
    hide Shaped, DecimalEnd, ValueOk, Read, LiteralValue, Exact, FirstPlace, IsRounded, Codes, LaidOut, NatText, Pow;
    b, k := FormatDouble(L, d, negative, precision, k0, kCheck);
    ShapedOk(cfg, b);
    r := EncodeThenDecode(cfg, Num(Codes(b)));
  }
}
