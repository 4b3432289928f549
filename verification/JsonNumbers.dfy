/** The decimals `fpconv_strtod` reads. */
module JsonNumbers {
  import opened Bytes
  import opened JsonStrings
  import opened JsonValues
  import JsonCodec
  import JsonParser

  /** The first position from p on that is no digit. */
  function DigitsEnd(d: seq<Byte>, p: nat): (q: nat)
    ensures q >= p && (q > p ==> q <= |d|) && !IsDigit(At(d, q)) && forall k :: p <= k < q ==> IsDigit(At(d, k))
    decreases |d| - p
  {
    if IsDigit(At(d, p)) then DigitsEnd(d, p + 1) else p
  }

  predicate IsSign(c: Byte) {
    c == 43 || c == 45
  }

  function SkipSign(d: seq<Byte>, p: nat): nat {
    if IsSign(At(d, p)) then p + 1 else p
  }

  /** Behind the digits and the point, or p if there is no digit. */
  function MantissaEnd(d: seq<Byte>, p: nat): nat {
    var q := SkipSign(d, p);
    var w := DigitsEnd(d, q);
    if At(d, w) == 46 then
      var f := DigitsEnd(d, w + 1);
      if w - q + (f - w - 1) == 0 then p else f
    else if w == q then p else w
  }

  /** Behind an exponent, if there is one with a digit. */
  function ExponentEnd(d: seq<Byte>, p: nat): nat {
    if At(d, p) == 101 || At(d, p) == 69 then
      var q := SkipSign(d, p + 1);
      var e := DigitsEnd(d, q);
      if e > q then e else p
    else p
  }

  /** Where `fpconv_strtod` stops; p if there is no number. Hexadecimal numbers and words are not decimal. */
  function DecimalEnd(d: seq<Byte>, p: nat): nat {
    var m := MantissaEnd(d, p);
    if m == p then p else ExponentEnd(d, m)
  }

  /** The text l, seen inside a longer text. */
  ghost predicate Same(d: seq<Byte>, p: nat, l: seq<Byte>) {
    && (forall k: nat :: k < |l| ==> At(d, p + k) == l[k])
    && Delim(At(d, p + |l|))
  }

  lemma HoldsSame(d: seq<Byte>, p: nat, l: seq<Byte>)
    requires Holds(d, p, l) && Delim(At(d, p + |l|))
    ensures Same(d, p, l)
  {
    forall k: nat | k < |l|
      ensures At(d, p + k) == l[k]
    {
      assert d[p..p + |l|][k] == d[p + k];
    }
  }

  lemma SameAt(d: seq<Byte>, p: nat, l: seq<Byte>, k: nat)
    requires Same(d, p, l) && k <= |l|
    ensures k < |l| ==> At(d, p + k) == At(l, k)
    ensures k == |l| ==> Delim(At(d, p + k)) && At(l, k) == 0
  {
  }

  lemma {:induction false} DigitsStable(d: seq<Byte>, p: nat, l: seq<Byte>, k: nat)
    requires Same(d, p, l) && k <= |l|
    ensures DigitsEnd(d, p + k) == p + DigitsEnd(l, k) && DigitsEnd(l, k) <= |l|
    decreases |l| - k
  {
    SameAt(d, p, l, k);
    if k < |l| && IsDigit(l[k]) {
      DigitsStable(d, p, l, k + 1);
    }
  }

  lemma SignStable(d: seq<Byte>, p: nat, l: seq<Byte>, k: nat)
    requires Same(d, p, l) && k <= |l|
    ensures SkipSign(d, p + k) == p + SkipSign(l, k) && SkipSign(l, k) <= |l|
  {
    SameAt(d, p, l, k);
  }

  lemma MantissaStable(d: seq<Byte>, p: nat, l: seq<Byte>)
    requires Same(d, p, l)
    ensures MantissaEnd(d, p) == p + MantissaEnd(l, 0) && MantissaEnd(l, 0) <= |l|
  {
    hide DigitsEnd, SkipSign, Same;
    SignStable(d, p, l, 0);
    var q := SkipSign(l, 0);
    DigitsStable(d, p, l, q);
    var w := DigitsEnd(l, q);
    SameAt(d, p, l, w);
    if At(l, w) == 46 {
      DigitsStable(d, p, l, w + 1);
    }
  }

  lemma ExponentStable(d: seq<Byte>, p: nat, l: seq<Byte>, m: nat)
    requires Same(d, p, l) && m <= |l|
    ensures ExponentEnd(d, p + m) == p + ExponentEnd(l, m)
  {
    hide DigitsEnd, SkipSign, Same;
    SameAt(d, p, l, m);
    if At(l, m) == 101 || At(l, m) == 69 {
      SignStable(d, p, l, m + 1);
      DigitsStable(d, p, l, SkipSign(l, m + 1));
    }
  }

  /** Inside a longer text, in front of a delimiter, a number ends where it ends on its own. */
  lemma DecimalStable(d: seq<Byte>, p: nat, l: seq<Byte>)
    requires Same(d, p, l)
    ensures DecimalEnd(d, p) == p + DecimalEnd(l, 0)
  {
    hide MantissaEnd, ExponentEnd, Same;
    MantissaStable(d, p, l);
    ExponentStable(d, p, l, MantissaEnd(l, 0));
  }

  /** A decimal number: all of the text, without a plus sign in front. */
  predicate IsDecimal(l: seq<Byte>) {
    l != [] && 0 !in l && l[0] != 43 && DecimalEnd(l, 0) == |l|
  }

  /** A zero in front of a digit is not JSON. */
  predicate LeadingZero(l: seq<Byte>) {
    var q := SkipSign(l, 0);
    At(l, q) == 48 && IsDigit(At(l, q + 1))
  }

  /** The sign is followed by a digit or by the point. */
  lemma DecimalFront(l: seq<Byte>)
    requires IsDecimal(l)
    ensures var q := SkipSign(l, 0); IsDigit(At(l, q)) || At(l, q) == 46
    ensures l[0] == 45 || IsDigit(l[0]) || l[0] == 46
  {
  }

  /** A letter x behind a zero ends the number. */
  lemma NoHex(l: seq<Byte>)
    requires IsDecimal(l) && At(l, SkipSign(l, 0)) == 48
    ensures Lower(At(l, SkipSign(l, 0) + 1)) != 120
  {
  }

  /** Decimal numbers are read back, in strict mode those without a leading zero. */
  lemma DecimalsOk(cfg: Config, l: seq<Byte>)
    requires forall d: seq<Byte>, p: nat :: cfg.num(d, p) == DecimalEnd(d, p)
    requires IsDecimal(l) && l[0] != 46 && (cfg.lenient || !LeadingZero(l))
    ensures NumOk(cfg, l)
  {
    hide DecimalEnd, Same;
    DecimalFront(l);
    forall d: seq<Byte>, p: nat | Holds(d, p, l) && Delim(At(d, p + |l|))
      ensures cfg.num(d, p) == p + |l| && (cfg.lenient || !IsInvalidNumber(d, p))
    {
      HoldsSame(d, p, l);
      DecimalStable(d, p, l);
      if !cfg.lenient {
        StrictOk(d, p, l);
      }
    }
  }

  lemma StrictOk(d: seq<Byte>, p: nat, l: seq<Byte>)
    requires IsDecimal(l) && l[0] != 46 && !LeadingZero(l) && Same(d, p, l)
    ensures !IsInvalidNumber(d, p)
  {
    DecimalFront(l);
    if At(l, SkipSign(l, 0)) == 48 {
      NoHex(l);
    }
    hide IsDecimal, Same;
    var q := SkipSign(l, 0);
    SameAt(d, p, l, 0);
    SignStable(d, p, l, 0);
    SameAt(d, p, l, q);
    if q < |l| {
      SameAt(d, p, l, q + 1);
    }
  }

  /** `json_encode` and `json_decode` one after the other give the value back. */
  method EncodeThenDecode(cfg: Config, v: Json) returns (r: JsonParser.Result)
    requires ValueOk(cfg, v) && Depth(v) <= cfg.encodeMaxDepth && Depth(v) <= cfg.decodeMaxDepth
    ensures r == JsonParser.Value(v)
  {
    hide ValueOk, Depth, ParseText, Print;
    var ok, text := JsonCodec.Encode(cfg, v);
    r := JsonParser.DecodeText(cfg, text);
    RoundTrip(cfg, v);
  }
}
