/** `fpconv_g_fmt` and a reader for its text. */
module GFmt {
  import opened Arith
  import opened Digits
  import opened Doubles
  import opened Pow5s
  import opened Decimals
  import ShortestDecimals
  import opened Dtoa

  function DigitChar(d: Digit): char {
    '0' + d as char
  }

  function Text(ds: seq<Digit>): (t: string)
    ensures |t| == |ds| && forall i :: 0 <= i < |ds| ==> t[i] == DigitChar(ds[i])
  {
    seq(|ds|, i requires 0 <= i < |ds| => DigitChar(ds[i]))
  }

  // Reading decimal text

  /** The value of a character as a digit; other characters count as zero. */
  function CharDigit(c: char): Digit {
    if '0' <= c <= '9' then (c - '0') as int else 0
  }

  ghost function TextNum(t: string): nat {
    if t == "" then 0 else 10 * TextNum(t[..|t| - 1]) + CharDigit(t[|t| - 1])
  }

  /** The place of a character in a text, or the length of the text. */
  ghost function Find(t: string, c: char): (i: nat)
    ensures i <= |t| && (i < |t| ==> t[i] == c) && forall j :: 0 <= j < i ==> t[j] != c
  {
    if t == "" || t[0] == c then 0 else 1 + Find(t[1..], c)
  }

  /** Sign, digits and exponent of a decimal such as -12.5e+03. */
  datatype Literal = Literal(negative: bool, digits: nat, exponent: int)

  ghost function Read(t: string): Literal {
    if t != "" && t[0] == '-' then ReadUnsigned(true, t[1..]) else ReadUnsigned(false, t)
  }

  ghost function ReadUnsigned(negative: bool, u: string): Literal {
    var i := Find(u, 'e');
    var m := u[..i];
    var j := Find(m, '.');
    var whole, fraction := m[..j], if j < |m| then m[j + 1..] else "";
    Literal(negative, TextNum(whole + fraction), ReadExponent(u[i..]) - |fraction|)
  }

  /** The exponent after the letter e, with its sign; none is zero. */
  ghost function ReadExponent(t: string): int {
    if |t| < 2 then 0 else if t[1] == '-' then -(TextNum(t[2..]) as int) else TextNum(t[2..])
  }

  // Writing it

  /** The number of digits to write and the weight of the first, at least two digits. */
  method CountPlaces(x: nat) returns (j: nat, k: nat)
    ensures j >= 2 && k == Pow(10, j - 1) && x < 10 * k && (x < 1000 ==> j <= 3) && (j > 2 ==> k <= x)
  {
    j, k := 2, 10;
    PowStep(10, 0);
    PowStep(10, 1);
    while 10 * k <= x
      invariant j >= 2 && k == Pow(10, j - 1) >= 10
      invariant j > 2 ==> k <= x && k >= 100
      invariant j > 3 ==> k >= 1000
      decreases x - k
    {
      j, k := j + 1, 10 * k;
    }
  }

  ghost predicate Written(x: nat, ds: seq<Digit>, rest: nat, n: nat) {
    x * Pow(10, |ds|) == Num(ds) * Pow(10, n) + rest
  }

  lemma WrittenStart(x: nat, n: nat)
    ensures Written(x, [], x, n) && Text([]) == ""
  {
    PowStep(10, 0);
    assert Num([]) == 0;
  }

  /** The loops that write a non-negative exponent with at least two digits. */
  method WriteExponent(b: string, x: nat) returns (r: string, ghost ds: seq<Digit>)
    ensures r == b + Text(ds) && IsExponent(ds, x) && (x < 1000 ==> |ds| <= 3)
  {
    var j, k := CountPlaces(x);
    ghost var n: nat := j;
    var rest: nat := x;
    WrittenStart(x, n);
    r, ds := b, [];
    hide Pow, Num, Written;
    while j > 0
      invariant 0 <= j <= n && |ds| == n - j && k == Pow(10, n - 1) && (j > 0 ==> 0 <= rest < 10 * k)
      invariant j > 0 ==> Written(x, ds, rest, n)
      invariant j == 0 ==> Num(ds) == x
      invariant if ds == [] then rest == x && k > 0 && (n > 2 ==> k <= x) else n > 2 ==> ds[0] != 0
      invariant r == b + Text(ds)
      decreases j
    {
      WriteStep(x, ds, rest, k, n);
      FirstDigit(rest, k);
      var i: Digit := rest / k;
      TextAppend(b, ds, i);
      r, ds := r + [DigitChar(i)], ds + [i];
      rest := (rest - i * k) * 10;
      j := j - 1;
    }
  }

  lemma FirstDigit(x: nat, k: nat)
    requires 0 < k
    ensures k <= x ==> x / k > 0
  {
    if k <= x && x / k == 0 {
      DivBounds(x, k);
      assert false;
    }
  }

  lemma TextAppend(b: string, ds: seq<Digit>, d: Digit)
    ensures b + Text(ds) + [DigitChar(d)] == b + Text(ds + [d])
  {
    assert Text(ds + [d]) == Text(ds) + [DigitChar(d)];
  }

  lemma WriteStep(x: nat, ds: seq<Digit>, rest: nat, k: nat, n: nat)
    requires 0 < n && |ds| < n && k == Pow(10, n - 1) && rest < 10 * k
    requires Written(x, ds, rest, n)
    ensures 0 < k && 0 <= rest / k < 10
    ensures 0 <= (rest - rest / k * k) * 10 < 10 * k
    ensures Written(x, ds + [rest / k], (rest - rest / k * k) * 10, n)
    ensures |ds| + 1 == n ==> Num(ds + [rest / k]) == x
  {
    hide Pow, Num;
    PowPos(10, n - 1);
    var i := rest / k;
    TopDigit(rest, k);
    NumAppend(ds, i);
    PowStep(10, |ds|);
    PowStep(10, n - 1);
    var r := rest - i * k;
    WriteAlgebra(x, Pow(10, |ds|), Num(ds), k, i, r);
    if |ds| + 1 == n {
      LastDigit(x, 10 * Num(ds) + i, k, r);
    }
  }

  lemma TopDigit(rest: nat, k: nat)
    requires 0 < k && rest < 10 * k
    ensures 0 <= rest / k < 10 && 0 <= rest - rest / k * k < k
  {
    DivBounds(rest, k);
    var i := rest / k;
    if i >= 10 {
      MulLe(10, i, k);
    }
    assert (i + 1) * k == i * k + k;
  }

  lemma LastDigit(x: nat, m: nat, k: nat, r: nat)
    requires 0 < k && x * k == m * k + r && r < k
    ensures x == m
  {
    DivModUnique(x * k, k, x, 0);
    DivModUnique(x * k, k, m, r);
  }

  lemma WriteAlgebra(x: nat, t: nat, m: nat, k: nat, i: nat, r: nat)
    requires x * t == m * (10 * k) + (i * k + r)
    ensures x * (10 * t) == (10 * m + i) * (10 * k) + r * 10
    ensures x * t == (10 * m + i) * k + r
  {
    assert m * (10 * k) == (10 * m) * k;
    assert (10 * m + i) * k == (10 * m) * k + i * k;
    assert x * (10 * t) == 10 * (x * t);
    assert (10 * m + i) * (10 * k) == 10 * ((10 * m + i) * k);
  }

  lemma {:induction false} TextNumText(ds: seq<Digit>)
    ensures TextNum(Text(ds)) == Num(ds)
  {
    if ds != [] {
      var n := |ds| - 1;
      TextNumText(ds[..n]);
      assert Text(ds)[..n] == Text(ds[..n]);
    }
  }

  lemma TextConcat(a: seq<Digit>, b: seq<Digit>)
    ensures Text(a + b) == Text(a) + Text(b)
  {
  }

  /** Zeros behind are factors of ten. */
  lemma {:induction false} NumZeros(ds: seq<Digit>, n: nat)
    ensures Num(ds + Zeros(n)) == Num(ds) * Pow(10, n)
  {
    hide Num, Pow;
    if n == 0 {
      assert ds + Zeros(0) == ds;
      PowStep(10, 0);
    } else {
      NumZeros(ds, n - 1);
      assert ds + Zeros(n) == (ds + Zeros(n - 1)) + [0];
      NumAppend(ds + Zeros(n - 1), 0);
      PowStep(10, n - 1);
      MulAssoc(Num(ds), 10, Pow(10, n - 1));
    }
  }

  /** Zeros in front count nothing. */
  lemma {:induction false} NumZerosFront(ds: seq<Digit>, n: nat)
    ensures Num(Zeros(n) + ds) == Num(ds)
    decreases |ds| + n
  {
    if ds != [] {
      NumZerosFront(ds[..|ds| - 1], n);
      assert Zeros(n) + ds == (Zeros(n) + ds[..|ds| - 1]) + [ds[|ds| - 1]];
      NumAppend(Zeros(n) + ds[..|ds| - 1], ds[|ds| - 1]);
    } else if n > 0 {
      NumZerosFront([], n - 1);
      assert Zeros(n) + [] == (Zeros(n - 1) + []) + [0];
      NumAppend(Zeros(n - 1) + [], 0);
    }
  }

  function Zeros(n: nat): (ds: seq<Digit>)
    ensures |ds| == n
  {
    seq(n, _ => 0)
  }

  /** The parts of a decimal text: sign, whole digits, a point and a fraction unless that is empty, an exponent
      unless it is empty. */
  ghost function Parts(sign: bool, whole: seq<Digit>, fraction: seq<Digit>, exponent: string): string {
    var u := Mantissa(whole, fraction) + exponent;
    if sign then "-" + u else u
  }

  /** Text made of such parts reads as the number they show. */
  lemma ReadParts(sign: bool, whole: seq<Digit>, fraction: seq<Digit>, exponent: string)
    requires whole != [] && (exponent == "" || exponent[0] == 'e')
    ensures Read(Parts(sign, whole, fraction, exponent)) ==
      Literal(sign, Num(whole + fraction), ReadExponent(exponent) - |fraction|)
  {
    var m := Mantissa(whole, fraction);
    var u := m + exponent;
    MantissaParts(whole, fraction, m);
    hide Mantissa, ReadUnsigned, Num, Text, ReadExponent, Find;
    ReadMantissa(sign, whole, fraction, exponent);
    ReadSigned(sign, u);
  }

  lemma ReadSigned(sign: bool, u: string)
    requires u != "" && u[0] != '-'
    ensures Read(if sign then "-" + u else u) == ReadUnsigned(sign, u)
  {
    assert ("-" + u)[1..] == u;
  }

  lemma ReadMantissa(sign: bool, whole: seq<Digit>, fraction: seq<Digit>, exponent: string)
    requires whole != [] && (exponent == "" || exponent[0] == 'e')
    ensures ReadUnsigned(sign, Mantissa(whole, fraction) + exponent) ==
      Literal(sign, Num(whole + fraction), ReadExponent(exponent) - |fraction|)
  {
    var m := Mantissa(whole, fraction);
    var u := m + exponent;
    MantissaParts(whole, fraction, m);
    TextNumText(whole + fraction);
    hide Mantissa, Text, TextNum, Num, ReadExponent, Find, ReadUnsigned;
    FindAt(u, 'e', |m|);
    assert u[..|m|] == m && u[|m|..] == exponent;
    var w, f := m[..|whole|], if |whole| < |m| then m[|whole| + 1..] else "";
    assert fraction == [] ==> Text(fraction) == "" by {
      assert |Text(fraction)| == |fraction|;
    }
    ReadPieces(sign, u, m, exponent, w, f);
    assert f == Text(fraction) && |f| == |fraction|;
  }

  lemma ReadPieces(negative: bool, u: string, m: string, exponent: string, w: string, f: string)
    requires var i := Find(u, 'e'); u[..i] == m && u[i..] == exponent
    requires var j := Find(m, '.'); m[..j] == w && f == if j < |m| then m[j + 1..] else ""
    ensures ReadUnsigned(negative, u) == Literal(negative, TextNum(w + f), ReadExponent(exponent) - |f|)
  {
    hide TextNum, ReadExponent, Find;
  }

  ghost function Mantissa(whole: seq<Digit>, fraction: seq<Digit>): string {
    Text(whole) + if fraction == [] then "" else "." + Text(fraction)
  }

  lemma MantissaParts(whole: seq<Digit>, fraction: seq<Digit>, m: string)
    requires whole != [] && m == Mantissa(whole, fraction)
    ensures m != "" && m[0] != '-' && (forall i :: 0 <= i < |m| ==> m[i] != 'e')
    ensures Find(m, '.') == |whole| && m[..|whole|] == Text(whole)
    ensures if fraction == [] then |m| == |whole| else |whole| < |m| && m[|whole| + 1..] == Text(fraction)
    ensures Text(whole) + Text(fraction) == Text(whole + fraction)
  {
    NoLetter(whole);
    NoLetter(fraction);
    TextConcat(whole, fraction);
    assert fraction == [] ==> Text(fraction) == "";
    var f := Text(fraction);
    assert |f| == |fraction|;
    assert m[..|whole|] == Text(whole);
    hide Text;
    FindAt(m, '.', |whole|);
  }

  lemma NoLetter(ds: seq<Digit>)
    ensures forall i :: 0 <= i < |ds| ==> Text(ds)[i] != 'e' && Text(ds)[i] != '.' && Text(ds)[i] != '-'
  {
    forall i | 0 <= i < |ds|
      ensures Text(ds)[i] != 'e' && Text(ds)[i] != '.' && Text(ds)[i] != '-'
    {
      assert Text(ds)[i] == DigitChar(ds[i]);
    }
  }

  lemma FindAt(t: string, c: char, n: nat)
    requires n <= |t| && (n < |t| ==> t[n] == c) && forall i :: 0 <= i < n ==> t[i] != c
    ensures Find(t, c) == n
  {
  }

  /** `while((*b = *s++)) b++` from digit number i on. */
  method CopyDigits(b: string, s: seq<Digit>, i: nat) returns (r: string)
    requires i <= |s|
    ensures r == b + Text(s[i..])
  {
    r := b;
    var j := i;
    assert Text([]) == "";
    while j < |s|
      invariant i <= j <= |s| && r == b + Text(s[i..j])
    {
      assert s[i..j + 1] == s[i..j] + [s[j]];
      TextAppend(b, s[i..j], s[j]);
      r, j := r + [DigitChar(s[j])], j + 1;
    }
    assert s[i..|s|] == s[i..];
  }

  /** n characters '0' */
  method CopyZeros(b: string, n: nat) returns (r: string)
    ensures r == b + Text(Zeros(n))
  {
    r := b;
    var j := 0;
    assert Text(Zeros(0)) == "";
    while j < n
      invariant 0 <= j <= n && r == b + Text(Zeros(j))
    {
      assert Zeros(j + 1) == Zeros(j) + [0];
      TextAppend(b, Zeros(j), 0);
      r, j := r + ['0'], j + 1;
    }
  }

  /** The text reads as the signed digits with the decimal point at decpt. */
  ghost predicate ReadsAs(t: string, sign: bool, s: seq<Digit>, decpt: int) {
    var r := Read(t);
    r.negative == sign && r.exponent <= decpt - |s| && r.digits == Num(s) * Pow(10, decpt - |s| - r.exponent)
  }

  /** The text of a JSON number: a sign or none, digits without a needless zero in front, a point only in front of
      digits, and an exponent or none. */
  ghost predicate Shaped(t: string) {
    exists sign: bool, whole: seq<Digit>, fraction: seq<Digit>, exponent: string ::
      t == Parts(sign, whole, fraction, exponent) && WholeShape(whole) && ExponentShape(exponent)
  }

  ghost predicate WholeShape(whole: seq<Digit>) {
    whole != [] && (whole[0] == 0 ==> |whole| == 1)
  }

  ghost predicate ExponentShape(e: string) {
    e == "" || exists negative: bool, es: seq<Digit> :: es != [] && e == ExponentText(negative, es)
  }

  ghost function ExponentText(negative: bool, es: seq<Digit>): string {
    "e" + (if negative then "-" else "+") + Text(es)
  }

  /** Digits and decimal point at decpt as plain decimal or in scientific layout: an exponent of at least two digits
      outside [10^-4, 10^precision), and otherwise none; the digits of s are all there, and as few zeros as possible. */
  ghost predicate LaidOut(t: string, sign: bool, s: seq<Digit>, decpt: int, precision: int) {
    s != [] &&
    if decpt <= -4 || decpt > precision then IsScientific(t, sign, s, decpt) else IsPlain(t, sign, s, decpt)
  }

  ghost predicate IsScientific(t: string, sign: bool, s: seq<Digit>, decpt: int)
    requires s != []
  {
    exists es: seq<Digit> :: IsScientificWith(t, sign, s, decpt, es)
  }

  ghost predicate IsScientificWith(t: string, sign: bool, s: seq<Digit>, decpt: int, es: seq<Digit>)
    requires s != []
  {
    IsExponent(es, Abs(decpt - 1)) && t == Parts(sign, s[..1], s[1..], ExponentText(decpt < 1, es))
  }

  ghost predicate IsPlain(t: string, sign: bool, s: seq<Digit>, decpt: int) {
    exists whole: seq<Digit>, fraction: seq<Digit> ::
      PlainParts(whole, fraction, s, decpt) && t == Parts(sign, whole, fraction, "")
  }

  ghost predicate IsExponent(es: seq<Digit>, x: nat) {
    Num(es) == x && |es| >= 2 && (|es| > 2 ==> es[0] != 0)
  }

  /** The whole digits up to the point, and those behind it. */
  ghost predicate PlainParts(whole: seq<Digit>, fraction: seq<Digit>, s: seq<Digit>, decpt: int) {
    && |whole| == Max(decpt, 1) && |fraction| == Max(|s| - decpt, 0)
    && whole + fraction == Zeros(1 - Min(decpt, 1)) + s + Zeros(Max(decpt - |s|, 0))
  }

  lemma PartsShaped(sign: bool, whole: seq<Digit>, fraction: seq<Digit>, exponent: string)
    requires WholeShape(whole) && ExponentShape(exponent)
    ensures Shaped(Parts(sign, whole, fraction, exponent))
  {
    hide Parts, WholeShape, ExponentShape;
  }

  lemma Assoc(a: string, b: string, c: string)
    ensures (a + b) + c == a + (b + c)
  {
  }

  lemma PartsAre(b: string, sign: bool, whole: seq<Digit>, fraction: seq<Digit>, exponent: string)
    requires b == if sign then "-" else ""
    ensures (b + Mantissa(whole, fraction)) + exponent == Parts(sign, whole, fraction, exponent)
  {
    hide Mantissa;
    var u := Mantissa(whole, fraction) + exponent;
    Assoc(b, Mantissa(whole, fraction), exponent);
    assert "" + u == u;
  }

  lemma PartsPlain(b: string, sign: bool, whole: seq<Digit>, fraction: seq<Digit>)
    requires b == if sign then "-" else ""
    ensures b + Mantissa(whole, fraction) == Parts(sign, whole, fraction, "")
  {
    hide Mantissa, Parts;
    PartsAre(b, sign, whole, fraction, "");
    var t := b + Mantissa(whole, fraction);
    assert t + "" == t;
  }

  lemma PartsReadAs(sign: bool, whole: seq<Digit>, fraction: seq<Digit>, exponent: string, s: seq<Digit>, decpt: int, z: nat)
    requires whole != [] && (exponent == "" || exponent[0] == 'e')
    requires Num(whole + fraction) == Num(s) * Pow(10, z)
    requires ReadExponent(exponent) - |fraction| == decpt - |s| - z
    ensures ReadsAs(Parts(sign, whole, fraction, exponent), sign, s, decpt)
  {
    hide Num, Pow, Read, Parts, ReadExponent;
    ReadParts(sign, whole, fraction, exponent);
  }

  /** The first digit, and the others behind a point. */
  method OnePointRest(b: string, s: seq<Digit>) returns (r: string)
    requires s != []
    ensures r == b + Mantissa(s[..1], s[1..]) && |r| <= |b| + |s| + 1
  {
    r := b + [DigitChar(s[0])];
    if |s| > 1 {
      r := r + ".";
      r := CopyDigits(r, s, 1);
    }
    assert s[..1] == [s[0]] && Text([s[0]]) == [DigitChar(s[0])] && s[1..] == [] <==> |s| == 1;
  }

  /** Scientific layout: one digit, a point if there are more, and an exponent. */
  method Scientific(b: string, sign: bool, s: seq<Digit>, decpt: int) returns (r: string)
    requires s != [] && b == if sign then "-" else ""
    ensures ReadsAs(r, sign, s, decpt) && Shaped(r) && IsScientific(r, sign, s, decpt)
    ensures -998 <= decpt <= 1000 ==> |r| <= |s| + 7
  {
    hide ReadsAs, Mantissa, Shaped, IsScientific;
    r := OnePointRest(b, s);
    ghost var mantissa := r;
    var x := decpt - 1;
    r := r + "e" + if x < 0 then "-" else "+";
    ghost var es;
    r, es := WriteExponent(r, Abs(x));
    ScientificReads(b, sign, s, decpt, mantissa, es, r);
  }

  lemma ExponentReads(es: seq<Digit>, x: int, e: string)
    requires Num(es) == Abs(x) && e == "e" + (if x < 0 then "-" else "+") + Text(es)
    ensures ReadExponent(e) == x && e[0] == 'e'
  {
    TextNumText(es);
    assert |es| > 0 || x == 0;
    hide Num, TextNum, Text;
    assert e[2..] == Text(es);
  }

  lemma ScientificReads(b: string, sign: bool, s: seq<Digit>, decpt: int, mantissa: string, es: seq<Digit>, r: string)
    requires s != [] && b == (if sign then "-" else "") && mantissa == b + Mantissa(s[..1], s[1..])
    requires IsExponent(es, Abs(decpt - 1))
    requires r == mantissa + "e" + (if decpt - 1 < 0 then "-" else "+") + Text(es)
    ensures ReadsAs(r, sign, s, decpt) && Shaped(r) && IsScientific(r, sign, s, decpt)
  {
    var e := "e" + (if decpt - 1 < 0 then "-" else "+") + Text(es);
    assert s[..1] + s[1..] == s;
    PowStep(10, 0);
    assert e == ExponentText(decpt - 1 < 0, es);
    assert r == Parts(sign, s[..1], s[1..], e) ==> IsScientificWith(r, sign, s, decpt, es);
    PartsShaped(sign, s[..1], s[1..], e);
    hide Num, Pow, Read, Mantissa, Text, Parts, ReadsAs, Shaped, ExponentShape;
    ExponentReads(es, decpt - 1, e);
    var sgn := if decpt - 1 < 0 then "-" else "+";
    Assoc(mantissa, "e", sgn);
    Assoc(mantissa, "e" + sgn, Text(es));
    PartsAre(b, sign, s[..1], s[1..], e);
    PartsReadAs(sign, s[..1], s[1..], e, s, decpt, 0);
  }

  /** Small numbers: zeros between the point and the digits. */
  method SmallFixed(b: string, sign: bool, s: seq<Digit>, decpt: int) returns (r: string)
    requires s != [] && b == (if sign then "-" else "") && decpt <= 0
    ensures ReadsAs(r, sign, s, decpt) && |r| == |b| + 2 - decpt + |s| && Shaped(r) && IsPlain(r, sign, s, decpt)
  {
    hide Num, Pow, Read, TextNum, ReadsAs, Shaped, IsPlain;
    r := b + "0" + ".";
    r := CopyZeros(r, -decpt);
    r := CopyDigits(r, s, 0);
    SmallReads(b, sign, s, decpt, r);
  }

  lemma AssocFive(a: string, b: string, c: string, d: string, e: string)
    ensures a + b + c + d + e == a + (b + (c + (d + e)))
  {
    Assoc(a + b + c, d, e);
    Assoc(a + b, c, d + e);
    Assoc(a, b, c + (d + e));
  }

  lemma SmallText(b: string, s: seq<Digit>, z: seq<Digit>, r: string)
    requires r == b + "0" + "." + Text(z) + Text(s) && z + s != []
    ensures r == b + Mantissa([0], z + s) && |r| == |b| + 2 + |z| + |s|
  {
    TextConcat(z, s);
    assert Text([0]) == "0";
    var zs, t := Text(z), Text(s);
    assert Mantissa([0], z + s) == "0" + ("." + (zs + t));
    assert |zs| == |z| && |t| == |s|;
    hide Text, Mantissa;
    AssocFive(b, "0", ".", zs, t);
  }

  lemma SmallReads(b: string, sign: bool, s: seq<Digit>, decpt: int, r: string)
    requires s != [] && b == (if sign then "-" else "") && decpt <= 0
    requires r == b + "0" + "." + Text(Zeros(-decpt)) + Text(s[0..])
    ensures ReadsAs(r, sign, s, decpt) && |r| == |b| + 2 - decpt + |s| && Shaped(r) && IsPlain(r, sign, s, decpt)
  {
    hide Num, Pow, Read, Text, ReadsAs, Parts, Mantissa, Shaped;
    assert s[0..] == s;
    var f := Zeros(-decpt) + s;
    SmallText(b, s, Zeros(-decpt), r);
    NumZerosFront(s, 1 - decpt);
    assert [0] + f == Zeros(1 - decpt) + s;
    PowStep(10, 0);
    PartsPlain(b, sign, [0], f);
    PartsShaped(sign, [0], f, "");
    assert PlainParts([0], f, s, decpt);
    PartsReadAs(sign, [0], f, "", s, decpt, 0);
  }

  /** Numbers with the point among the digits or behind them. */
  method LargeFixed(b: string, sign: bool, s: seq<Digit>, decpt: nat) returns (r: string)
    requires s != [] && b == (if sign then "-" else "") && decpt > 0
    ensures ReadsAs(r, sign, s, decpt) && |r| <= |b| + Max(|s| + 1, decpt) && (s[0] != 0 ==> Shaped(r)) && IsPlain(r, sign, s, decpt)
  {
    hide Num, Pow, Read, TextNum, ReadsAs, Shaped, IsPlain;
    r := b;
    var i := 0;
    var left: int := decpt;
    assert Text([]) == "";
    hide Text, PointAfter;
    assert r == b + PointAfter(s[..0], decpt, decpt < |s|) by {
      PointNone(decpt, decpt < |s|);
    }
    while i < |s|
      invariant 0 <= i <= |s| && left == decpt - i
      invariant r == b + PointAfter(s[..i], decpt, decpt < |s|)
    {
      PointStep(b, s, i, decpt);
      r := r + [DigitChar(s[i])];
      i, left := i + 1, left - 1;
      if left == 0 && i < |s| {
        r := r + ".";
      }
    }
    assert s[..|s|] == s;
    if left > 0 {
      r := CopyZeros(r, left);
    }
    LargeReads(b, sign, s, decpt, r);
  }

  /** Digits with the point after the first n; there is none when no digit follows in the end. */
  ghost function PointAfter(ds: seq<Digit>, n: nat, point: bool): string {
    if |ds| < n || !point then Text(ds) else Text(ds[..n]) + "." + Text(ds[n..])
  }

  lemma PointNone(n: nat, point: bool)
    requires n > 0
    ensures PointAfter([], n, point) == ""
  {
  }

  lemma PointStep(b: string, s: seq<Digit>, i: nat, n: nat)
    requires i < |s| && n > 0
    ensures b + PointAfter(s[..i], n, n < |s|) + [DigitChar(s[i])] + (if i + 1 == n && n < |s| then "." else "")
         == b + PointAfter(s[..i + 1], n, n < |s|)
  {
    assert s[..i + 1] == s[..i] + [s[i]];
    assert Text(s[..i + 1]) == Text(s[..i]) + [DigitChar(s[i])];
    if n < |s| && i + 1 == n {
      assert s[..i + 1][..n] == s[..i + 1] && Text(s[..i + 1][n..]) == "";
    } else if n < |s| && i >= n {
      assert s[..i + 1][..n] == s[..i][..n] && s[..i + 1][n..] == s[..i][n..] + [s[i]];
      assert Text(s[..i + 1][n..]) == Text(s[..i][n..]) + [DigitChar(s[i])];
    }
  }

  lemma LargePoint(s: seq<Digit>, n: nat)
    requires n < |s|
    ensures PointAfter(s, n, true) == Mantissa(s[..n], s[n..])
  {
    hide Text;
    Assoc(Text(s[..n]), ".", Text(s[n..]));
  }

  lemma LargeWhole(s: seq<Digit>, n: nat, z: seq<Digit>)
    requires n >= |s| && z == Zeros(n - |s|)
    ensures PointAfter(s, n, false) + (if n > |s| then Text(z) else "") == Mantissa(s + z, [])
  {
    TextConcat(s, z);
    assert z == [] ==> s + z == s;
  }

  lemma LargeReads(b: string, sign: bool, s: seq<Digit>, decpt: nat, r: string)
    requires s != [] && b == (if sign then "-" else "") && decpt > 0
    requires r == b + PointAfter(s, decpt, decpt < |s|) + if decpt > |s| then Text(Zeros(decpt - |s|)) else ""
    ensures ReadsAs(r, sign, s, decpt) && |r| <= |b| + Max(|s| + 1, decpt) && (s[0] != 0 ==> Shaped(r)) && IsPlain(r, sign, s, decpt)
  {
    hide Num, Pow, Read, ReadsAs, Parts, Text, PointAfter, Mantissa, Shaped;
    if decpt < |s| {
      PointedReads(b, sign, s, decpt, r);
    } else {
      WholeReads(b, sign, s, decpt, r);
    }
  }

  lemma MantissaLength(whole: seq<Digit>, fraction: seq<Digit>)
    ensures |Mantissa(whole, fraction)| == |whole| + if fraction == [] then 0 else 1 + |fraction|
  {
  }

  lemma PlainIs(sign: bool, whole: seq<Digit>, fraction: seq<Digit>, s: seq<Digit>, decpt: int)
    requires PlainParts(whole, fraction, s, decpt)
    ensures IsPlain(Parts(sign, whole, fraction, ""), sign, s, decpt)
  {
  }

  lemma PartsAtPoint(s: seq<Digit>, n: nat)
    requires 0 < n < |s|
    ensures PlainParts(s[..n], s[n..], s, n)
  {
    assert s[..n] + s[n..] == Zeros(0) + s + Zeros(0);
  }

  lemma PartsWhole(s: seq<Digit>, n: nat)
    requires 0 < |s| <= n
    ensures PlainParts(s + Zeros(n - |s|), [], s, n)
  {
    assert (s + Zeros(n - |s|)) + [] == Zeros(0) + s + Zeros(n - |s|);
  }

  lemma PointedReads(b: string, sign: bool, s: seq<Digit>, decpt: nat, r: string)
    requires b == (if sign then "-" else "") && 0 < decpt < |s|
    requires r == b + PointAfter(s, decpt, true) + ""
    ensures ReadsAs(r, sign, s, decpt) && |r| == |b| + |s| + 1 && (s[0] != 0 ==> Shaped(r)) && IsPlain(r, sign, s, decpt)
  {
    hide Num, Pow, Read, ReadsAs, Parts, Text, PointAfter, Mantissa, Shaped, PlainParts, IsPlain, Zeros;
    MantissaLength(s[..decpt], s[decpt..]);
    var t := b + PointAfter(s, decpt, true);
    assert t + "" == t;
    LargePoint(s, decpt);
    assert s[..decpt] + s[decpt..] == s;
    PowStep(10, 0);
    PartsPlain(b, sign, s[..decpt], s[decpt..]);
    PartsAtPoint(s, decpt);
    PlainIs(sign, s[..decpt], s[decpt..], s, decpt);
    PartsReadAs(sign, s[..decpt], s[decpt..], "", s, decpt, 0);
    if s[0] != 0 {
      PartsShaped(sign, s[..decpt], s[decpt..], "");
    }
  }

  lemma WholeReads(b: string, sign: bool, s: seq<Digit>, decpt: nat, r: string)
    requires s != [] && b == (if sign then "-" else "") && |s| <= decpt
    requires r == b + PointAfter(s, decpt, false) + if decpt > |s| then Text(Zeros(decpt - |s|)) else ""
    ensures ReadsAs(r, sign, s, decpt) && |r| == |b| + decpt && (s[0] != 0 ==> Shaped(r)) && IsPlain(r, sign, s, decpt)
  {
    hide Num, Pow, Read, ReadsAs, Parts, Text, PointAfter, Mantissa, Shaped, PlainParts, IsPlain, Zeros;
    var z := Zeros(decpt - |s|);
    MantissaLength(s + z, []);
    NumZeros(s, decpt - |s|);
    LargeWhole(s, decpt, z);
    Assoc(b, PointAfter(s, decpt, false), if decpt > |s| then Text(z) else "");
    assert s + z + [] == s + z;
    PartsPlain(b, sign, s + z, []);
    PartsWhole(s, decpt);
    PlainIs(sign, s + z, [], s, decpt);
    PartsReadAs(sign, s + z, [], "", s, decpt, decpt - |s|);
    if s[0] != 0 {
      PartsShaped(sign, s + z, [], "");
    }
  }

  /** `fpconv_g_fmt` from the digits on. */
  method Format(s: seq<Digit>, decpt: int, sign: bool, precision: int) returns (b: string)
    requires s != []
    ensures ReadsAs(b, sign, s, decpt) && (s[0] != 0 ==> Shaped(b)) && LaidOut(b, sign, s, decpt, precision)
    ensures |s| <= precision <= 16 && -998 <= decpt <= 1000 ==> |b| <= 23
  {
    hide ReadsAs, Shaped, IsPlain, IsScientific;
    b := if sign then "-" else "";
    if decpt <= -4 || decpt > precision {
      b := Scientific(b, sign, s, decpt);
    } else if decpt <= 0 {
      b := SmallFixed(b, sign, s, decpt);
    } else {
      b := LargeFixed(b, sign, s, decpt);
    }
  }

  // A double and its text

  ghost function LiteralValue(r: Literal): real {
    (r.digits as real) * P10(r.exponent)
  }

  lemma ReadsAsReal(t: string, sign: bool, s: seq<Digit>, decpt: int)
    requires ReadsAs(t, sign, s, decpt)
    ensures Read(t).negative == sign && LiteralValue(Read(t)) == Decimal(s, decpt)
  {
    hide Read, P10, Num, Pow;
    var r := Read(t);
    ShownPlaces(Num(s), decpt - |s| - r.exponent, r.digits, r.exponent, decpt - |s|);
  }

  /** There is a letter e exactly in scientific layout. */
  lemma LayoutLetter(t: string, sign: bool, s: seq<Digit>, decpt: int, precision: int)
    requires LaidOut(t, sign, s, decpt, precision)
    ensures 'e' in t <==> decpt <= -4 || decpt > precision
  {
    hide Text, PlainParts, IsExponent;
    if decpt <= -4 || decpt > precision {
      var es :| IsScientificWith(t, sign, s, decpt, es);
      PartsLetter(sign, s[..1], s[1..], ExponentText(decpt < 1, es));
      assert ExponentText(decpt < 1, es)[0] == 'e';
    } else {
      var whole: seq<Digit>, fraction: seq<Digit> :| PlainParts(whole, fraction, s, decpt) && t == Parts(sign, whole, fraction, "");
      PartsLetter(sign, whole, fraction, "");
    }
  }

  lemma PartsLetter(sign: bool, whole: seq<Digit>, fraction: seq<Digit>, e: string)
    ensures 'e' in Parts(sign, whole, fraction, e) <==> 'e' in e
  {
    NoLetter(whole);
    NoLetter(fraction);
    hide Text;
    var f := Text(fraction);
    var m := Mantissa(whole, fraction);
    assert 'e' !in m by {
      assert 'e' !in Text(whole) && 'e' !in f;
    }
    hide Mantissa;
    assert 'e' in m + e <==> 'e' in e;
  }

  /** The value of digits with the point at decpt has its first place in front of the point at decpt - 1. */
  lemma DecimalPlace(s: seq<Digit>, decpt: int)
    requires s != [] && s[0] != 0
    ensures P10(decpt - 1) <= Decimal(s, decpt) < P10(decpt)
  {
    hide P10, Num, Pow;
    NumBounds(s);
    var u := decpt - |s|;
    P10Pos(u);
    P10Add(|s|, u);
    P10Add(|s| - 1, u);
    P10Nat(|s|);
    P10Nat(|s| - 1);
    BetweenTimes(Pow(10, |s| - 1), Num(s), Pow(10, |s|), P10(u));
  }

  lemma BetweenTimes(lo: nat, x: nat, hi: nat, c: real)
    requires lo <= x < hi && c > 0.0
    ensures (lo as real) * c <= (x as real) * c < (hi as real) * c
  {
    RMulLe(lo as real, x as real, c);
    RMulLe(x as real, hi as real, c);
  }

  /** So there is a letter e exactly for values outside [10^-4, 10^precision). */
  lemma LetterRange(t: string, sign: bool, s: seq<Digit>, decpt: int, precision: int)
    requires LaidOut(t, sign, s, decpt, precision) && s != [] && s[0] != 0
    ensures 'e' in t <==> Decimal(s, decpt) < P10(-4) || Decimal(s, decpt) >= P10(precision)
  {
    hide P10, Decimal, LaidOut;
    LayoutLetter(t, sign, s, decpt, precision);
    DecimalPlace(s, decpt);
    P10Mono(decpt, -4);
    P10Mono(-4, decpt - 1);
    P10Mono(precision, decpt - 1);
    P10Mono(decpt, precision);
  }

  /** A number in decimal. */
  ghost function NatText(n: nat): string {
    (if n < 10 then "" else NatText(n / 10)) + [DigitChar(n % 10)]
  }

  lemma {:induction false} NatTextIs(ds: seq<Digit>)
    requires WholeShape(ds)
    ensures Text(ds) == NatText(Num(ds))
  {
    var n := |ds| - 1;
    assert ds == ds[..n] + [ds[n]];
    TextAppend("", ds[..n], ds[n]);
    NumAppend(ds[..n], ds[n]);
    hide Num, NatText, Text;
    NatTextStep(Num(ds[..n]), ds[n]);
    if n > 0 {
      NatTextIs(ds[..n]);
      NumBounds(ds[..n]);
      PowPos(10, n - 1);
      assert "" + Text(ds[..n]) + [DigitChar(ds[n])] == Text(ds[..n]) + [DigitChar(ds[n])];
    } else {
      assert ds[..0] == [];
      NoDigits();
    }
  }

  lemma NoDigits()
    ensures Num([]) == 0 && Text([]) == ""
  {
  }

  lemma NatTextStep(m: nat, d: Digit)
    ensures NatText(10 * m + d) == (if m == 0 then "" else NatText(m)) + [DigitChar(d)]
  {
    assert (10 * m + d) / 10 == m && (10 * m + d) % 10 == d;
  }

  /** Digits that do not end in zero and stand for a whole number have their point behind them. */
  lemma WholeDigits(s: seq<Digit>, decpt: int, n: nat)
    requires Clean(s) && Decimal(s, decpt) == n as real
    ensures |s| <= decpt
    ensures n == Num(s) * Pow(10, decpt - |s|)
  {
    hide P10, Num, Pow;
    if decpt < |s| {
      NotWhole(s, decpt - |s|, n);
    } else {
      var z := decpt - |s|;
      P10Nat(z);
      Cast(Num(s), Pow(10, z));
    }
  }

  /** With a digit behind the point the last digit would be a zero. */
  lemma NotWhole(s: seq<Digit>, u: int, n: nat)
    requires Clean(s) && u < 0
    ensures (Num(s) as real) * P10(u) != n as real
  {
    hide P10, Num, Pow;
    LastDigitIs(s);
    TenTimes(n, -u);
    Scaled(Num(s), u, n);
    SameRemainder(Num(s), n * Pow(10, -u));
  }

  lemma LastDigitIs(s: seq<Digit>)
    requires Clean(s)
    ensures Num(s) % 10 != 0
  {
    hide Num;
    var m := |s| - 1;
    NumAppend(s[..m], s[m]);
    assert s == s[..m] + [s[m]];
  }

  lemma TenTimes(n: nat, z: nat)
    requires z > 0
    ensures n * Pow(10, z) % 10 == 0
  {
    hide Pow;
    PowStep(10, z - 1);
    assert n * (10 * Pow(10, z - 1)) == 10 * (n * Pow(10, z - 1));
  }

  lemma Scaled(x: nat, u: int, n: nat)
    requires u < 0
    ensures (x as real) * P10(u) == n as real ==> x as real == (n * Pow(10, -u)) as real
  {
    hide P10, Pow;
    var z: nat := -u;
    P10Step(0);
    P10Add(u, z);
    P10Nat(z);
    Cast(n, Pow(10, z));
    if (x as real) * P10(u) == n as real {
      Shifted(x as real, P10(u), P10(z), n as real);
    }
  }

  lemma SameRemainder(a: nat, b: nat)
    ensures a as real == b as real ==> a % 10 == b % 10
  {
  }

  lemma LastNotZero(m: nat, d: Digit)
    requires d != 0
    ensures (10 * m + d) % 10 != 0
  {
  }

  lemma Shifted(x: real, t: real, t': real, y: real)
    requires x * t == y && t * t' == 1.0
    ensures x == y * t'
  {
    assert (x * t) * t' == x * (t * t');
  }

  /** A whole number below 10^precision is written as it is in decimal. */
  lemma WholeText(t: string, sign: bool, s: seq<Digit>, decpt: int, precision: int, n: nat)
    requires LaidOut(t, sign, s, decpt, precision) && Clean(s) && Decimal(s, decpt) == n as real
    requires 0 < precision && n < Pow(10, precision)
    ensures t == (if sign then "-" else "") + NatText(n)
  {
    hide P10, Decimal, Pow, Num, LaidOut, Text, NatText;
    DecimalPlace(s, decpt);
    WholeDigits(s, decpt, n);
    P10Nat(precision);
    P10Mono(precision, decpt - 1);
    assert decpt <= precision;
    PlainWhole(t, sign, s, decpt, precision);
    NumZeros(s, decpt - |s|);
    NatTextIs(s + Zeros(decpt - |s|));
  }

  lemma PlainWhole(t: string, sign: bool, s: seq<Digit>, decpt: int, precision: int)
    requires LaidOut(t, sign, s, decpt, precision) && 0 < |s| <= decpt <= precision
    ensures t == (if sign then "-" else "") + Text(s + Zeros(decpt - |s|))
  {
    hide Text, Zeros;
    var whole: seq<Digit>, fraction: seq<Digit> :| PlainParts(whole, fraction, s, decpt) && t == Parts(sign, whole, fraction, "");
    var z, none := Zeros(decpt - |s|), Zeros(0);
    assert none == [] && fraction == [];
    assert whole == whole + fraction == s + z;
    var w := Text(whole);
    assert w + "" + "" == w;
  }

  /** Rounding leaves whole multiples of the place alone. */
  lemma RoundsWhole(d: Double, x: real, n: nat, k: int, precision: int)
    requires Exact(d) == n as real && FirstPlace(d, k) && 0 < precision && n < Pow(10, precision)
    requires IsRounded(Exact(d), x, k + 1 - precision)
    ensures x == n as real
  {
    hide Exact, Pow, P10;
    P10Nat(precision);
    P10Mono(precision, k);
    assert k < precision;
    var z := precision - k - 1;
    P10Step(0);
    ShortestDecimals.Coarser(n, 0, -z);
    var M :| x == ShortestDecimals.At(M, -z) && RoundedTo(Exact(d), M, -z);
    NearestIs(n as real, M, n * Pow(10, z), -z);
  }

  lemma NearestIs(y: real, M: int, V: int, u: int)
    requires RoundedTo(y, M, u) && ShortestDecimals.At(V, u) == y
    ensures ShortestDecimals.At(M, u) == y
  {
    P10Pos(u);
    hide P10;
    NearestUnit(M, V, P10(u), y);
  }

  lemma NearestUnit(M: int, V: int, unit: real, y: real)
    requires unit > 0.0 && (V as real) * unit == y
    requires -unit <= 2.0 * ((M as real) * unit - y) <= unit
    ensures M == V
  {
    var e := (M - V) as real;
    assert (M as real) * unit - y == e * unit;
    RMulLe(-0.5, e, unit);
    RMulLe(e, 0.5, unit);
    NoHalf(M - V);
  }

  lemma NoHalf(k: int)
    requires -0.5 <= k as real <= 0.5
    ensures k == 0
  {
  }

  /** Powers of two against powers of ten: 2^(3n) <= 10^n. */
  lemma {:induction false} EightBelowTen(n: nat)
    ensures P2(3 * n) <= P10(n)
  {
    P2Step(3 * n - 3);
    P2Step(3 * n - 2);
    P2Step(3 * n - 1);
    P10Step(n - 1);
    if n > 0 {
      EightBelowTen(n - 1);
      P10Pos(n - 1);
    }
  }

  /** The first digit of a double is less than 360 places from the point. */
  lemma FirstPlaceBound(d: Double, k: int)
    requires d.Finite() && FirstPlace(d, k)
    ensures -360 <= k <= 360
  {
    hide P10, P2, Exact;
    DoubleRange(d);
    if k > 360 {
      P10Mono(360, k);
      assert false;
    }
    if k < -360 {
      P10Mono(k + 1, -360);
      assert false;
    }
  }

  lemma DoubleRange(d: Double)
    requires d.Finite()
    ensures P10(-360) <= Exact(d) < P10(360)
  {
    var e := d.LowBit();
    var m := d.Significand();
    assert 1 <= m < 0x20_0000_0000_0000 && -1074 <= e <= 971;
    hide *;
    P2Mono(-1080, e);
    P2Mono(e, 1000);
    TwoTo53();
    P2Nat(53);
    P2Add(1000, 53);
    P2Mono(1053, 1080);
    P2Pos(e);
    EightBelowTen(360);
    SmallPowers();
    ExactRange(d, m, e, P2(1000), P2(53), P2(1053));
  }

  lemma ExactRange(d: Double, m: nat, e: int, top: real, q: real, pq: real)
    requires m == d.Significand() && e == d.LowBit()
    requires 1.0 <= m as real < q && 0.0 < P2(e) <= top && pq == top * q
    ensures P2(e) <= Exact(d) < pq
  {
    hide P2;
    RangeAlgebra(m as real, P2(e), top, q, pq);
  }

  lemma SmallPowers()
    ensures P10(-360) <= P2(-1080)
  {
    hide *;
    EightBelowTen(360);
    P2Add(-1080, 1080);
    P10Add(-360, 360);
    P2Step(0);
    P10Step(0);
    P2Pos(-1080);
    P10Pos(-360);
    P2Pos(1080);
    InverseLess(P2(1080), P10(360), P2(-1080), P10(-360));
  }

  lemma InverseLess(x: real, y: real, x': real, y': real)
    requires 0.0 < x <= y && x' * x == 1.0 && y' * y == 1.0 && y' > 0.0
    ensures y' <= x'
  {
    RMulLe(x, y, y');
    RMulLe(y', x', x);
  }

  lemma RangeAlgebra(m: real, p: real, top: real, q: real, pq: real)
    requires 1.0 <= m < q && 0.0 < p <= top && pq == top * q
    ensures p <= m * p < pq
  {
    RMulLe(1.0, m, p);
    RMulLe(m, q, p);
    RMulLe(p, top, q);
  }

  lemma TwoTo53()
    ensures Pow(2, 53) == 0x20_0000_0000_0000
  {
    PowAdd(2, 26, 27);
    PowAdd(2, 13, 13);
    PowAdd(2, 13, 14);
    assert Pow(2, 13) == 8192 && Pow(2, 14) == 16384;
  }

  lemma {:induction false} P2Mono(m: int, n: int)
    ensures m <= n ==> P2(m) <= P2(n)
    decreases n - m
  {
    if m < n {
      P2Mono(m, n - 1);
      P2Step(n - 1);
      P2Pos(n - 1);
    }
  }

  /** `fpconv_g_fmt` on a finite double that is not zero, k0 and kCheck as for `Dtoa`. */
  method FormatDouble(L: Pow5List, d: Double, negative: bool, precision: int, k0: int, kCheck: bool)
      returns (b: string, ghost k: int)
    requires L.Valid() && d.Finite()
    requires FirstPlace(d, k0) || (kCheck && FirstPlace(d, k0 - 1))
    modifies L, L.Cells`next
    ensures L.Valid() && old(L.Nodes) <= L.Nodes
    ensures FirstPlace(d, k) && Read(b).negative == negative && Shaped(b)
    ensures IsRounded(Exact(d), LiteralValue(Read(b)), k + 1 - Max(precision, 1))
    ensures 1 <= precision <= 16 ==> |b| <= 23
    ensures exists s: seq<Digit>, decpt: int :: Clean(s) && LaidOut(b, negative, s, decpt, precision)
    ensures precision >= 1 ==> ('e' in b <==> LiteralValue(Read(b)) < P10(-4) || LiteralValue(Read(b)) >= P10(precision))
    ensures precision >= 1 ==> forall n: nat :: n < Pow(10, precision) && Exact(d) == n as real ==>
      b == (if negative then "-" else "") + NatText(n)
  {
    hide Read, ReadsAs, LiteralValue, Exact, P10, FirstPlace, IsRounded, Num, Shaped, LaidOut, NatText, Pow;
    var s, decpt;
    s, decpt, k := Dtoa.Dtoa(L, d, 2, precision, k0, kCheck);
    FirstPlaceBound(d, k);
    b := Format(s, decpt, negative, precision);
    ReadsAsReal(b, negative, s, decpt);
    if precision >= 1 {
      RoundedText(d, b, negative, s, decpt, precision, k);
    }
  }

  lemma RoundedText(d: Double, b: string, negative: bool, s: seq<Digit>, decpt: int, precision: int, k: int)
    requires Clean(s) && LaidOut(b, negative, s, decpt, precision) && precision >= 1
    requires FirstPlace(d, k) && IsRounded(Exact(d), Decimal(s, decpt), k + 1 - precision)
    ensures 'e' in b <==> Decimal(s, decpt) < P10(-4) || Decimal(s, decpt) >= P10(precision)
    ensures forall n: nat :: n < Pow(10, precision) && Exact(d) == n as real ==>
      b == (if negative then "-" else "") + NatText(n)
  {
    hide LaidOut, FirstPlace, IsRounded, Decimal, Exact, P10, Pow, NatText;
    LetterRange(b, negative, s, decpt, precision);
    forall n: nat | n < Pow(10, precision) && Exact(d) == n as real
      ensures b == (if negative then "-" else "") + NatText(n)
    {
      RoundsWhole(d, Decimal(s, decpt), n, k, precision);
      WholeText(b, negative, s, decpt, precision, n);
    }
  }
}
