/** JSON strings by their grammar. */
module JsonEscapes {
  import opened Arith
  import opened Bytes
  import opened JsonStrings

  // Four hexadecimal digits

  const LOWER := "0123456789abcdef"
  const UPPER := "0123456789ABCDEF"

  function HexLetter(v: nat, up: bool): Byte
    requires v < 16
  {
    (if up then UPPER else LOWER)[v] as int % 256
  }

  /** A code unit as four hexadecimal digits, each in one of the cases. */
  function Spelling(u: nat, ups: seq<bool>): (s: seq<Byte>)
    requires u < 0x1_0000 && |ups| == 4
    ensures |s| == 4
  {
    [HexLetter(u / 0x1000, ups[0]), HexLetter(u / 0x100 % 0x10, ups[1]),
     HexLetter(u / 0x10 % 0x10, ups[2]), HexLetter(u % 0x10, ups[3])]
  }

  /** A digit has the value v if and only if it is the letter for v in one of the cases. */
  lemma HexDigitIs(c: Byte, v: nat)
    requires v < 16
    ensures HexDigit(c) == v <==> c == HexLetter(v, false) || c == HexLetter(v, true)
  {
    assert HexLetter(v, false) == if v < 10 then 48 + v else 87 + v;
    assert HexLetter(v, true) == if v < 10 then 48 + v else 55 + v;
  }

  ghost predicate Has(d: seq<Byte>, p: nat, s: seq<Byte>) {
    p + |s| <= |d| && d[p..p + |s|] == s
  }

  lemma HasFour(d: seq<Byte>, p: nat, s: seq<Byte>)
    requires |s| == 4 && 0 !in s
    ensures Has(d, p, s) <==> At(d, p) == s[0] && At(d, p + 1) == s[1] && At(d, p + 2) == s[2] && At(d, p + 3) == s[3]
  {
    if Has(d, p, s) {
      var part := d[p..p + 4];
      assert d[p] == part[0] && d[p + 1] == part[1] && d[p + 2] == part[2] && d[p + 3] == part[3];
    }
  }

  /** The four digits at p are read as u if and only if they spell it. */
  lemma Hex4Is(d: seq<Byte>, p: nat, u: nat)
    requires u < 0x1_0000
    ensures Hex4(d, p) == u <==> exists ups: seq<bool> :: |ups| == 4 && Has(d, p, Spelling(u, ups))
  {
    hide HexLetter, HexDigit;
    HexParts(u);
    if Hex4(d, p) == u {
      var ups := SpelledCases(d, p, u);
      assert |ups| == 4;
    }
    if ups: seq<bool> :| |ups| == 4 && Has(d, p, Spelling(u, ups)) {
      SpellingRead(d, p, u, ups);
    }
  }

  lemma HexParts(u: nat)
    requires u < 0x1_0000
    ensures u == u / 0x1000 * 0x1000 + u / 0x100 % 0x10 * 0x100 + u / 0x10 % 0x10 * 0x10 + u % 0x10
    ensures u / 0x1000 < 0x10
  {
  }

  lemma HexUnique(a: nat, b: nat, c: nat, e: nat, u: nat)
    requires a < 0x10 && b < 0x10 && c < 0x10 && e < 0x10 && u == a * 0x1000 + b * 0x100 + c * 0x10 + e
    ensures a == u / 0x1000 && b == u / 0x100 % 0x10 && c == u / 0x10 % 0x10 && e == u % 0x10
  {
    DivModUnique(u, 0x1000, a, b * 0x100 + c * 0x10 + e);
    DivModUnique(u, 0x100, a * 0x10 + b, c * 0x10 + e);
    DivModUnique(a * 0x10 + b, 0x10, a, b);
    DivModUnique(u, 0x10, a * 0x100 + b * 0x10 + c, e);
    DivModUnique(a * 0x100 + b * 0x10 + c, 0x10, a * 0x10 + b, c);
  }

  lemma NotZeroLetter(v: nat, up: bool)
    requires v < 16
    ensures HexLetter(v, up) != 0
  {
    assert HexLetter(v, up) == if v < 10 then 48 + v else if up then 55 + v else 87 + v;
  }

  lemma SpellingNotZero(u: nat, ups: seq<bool>)
    requires u < 0x1_0000 && |ups| == 4
    ensures 0 !in Spelling(u, ups)
  {
    HexParts(u);
    NotZeroLetter(u / 0x1000, ups[0]);
    NotZeroLetter(u / 0x100 % 0x10, ups[1]);
    NotZeroLetter(u / 0x10 % 0x10, ups[2]);
    NotZeroLetter(u % 0x10, ups[3]);
    hide HexLetter;
  }

  lemma SpellingRead(d: seq<Byte>, p: nat, u: nat, ups: seq<bool>)
    requires u < 0x1_0000 && |ups| == 4 && Has(d, p, Spelling(u, ups))
    ensures Hex4(d, p) == u
  {
    hide HexLetter, HexDigit, Has;
    HexParts(u);
    SpellingNotZero(u, ups);
    HasFour(d, p, Spelling(u, ups));
    HexDigitIs(At(d, p), u / 0x1000);
    HexDigitIs(At(d, p + 1), u / 0x100 % 0x10);
    HexDigitIs(At(d, p + 2), u / 0x10 % 0x10);
    HexDigitIs(At(d, p + 3), u % 0x10);
  }

  lemma SpelledCases(d: seq<Byte>, p: nat, u: nat) returns (ups: seq<bool>)
    requires u < 0x1_0000 && Hex4(d, p) == u
    ensures |ups| == 4 && Has(d, p, Spelling(u, ups))
  {
    hide HexLetter, HexDigit, Has;
    HexParts(u);
    HexUnique(HexDigit(At(d, p)), HexDigit(At(d, p + 1)), HexDigit(At(d, p + 2)), HexDigit(At(d, p + 3)), u);
    HexDigitIs(At(d, p), u / 0x1000);
    HexDigitIs(At(d, p + 1), u / 0x100 % 0x10);
    HexDigitIs(At(d, p + 2), u / 0x10 % 0x10);
    HexDigitIs(At(d, p + 3), u % 0x10);
    ups := [At(d, p) != HexLetter(u / 0x1000, false), At(d, p + 1) != HexLetter(u / 0x100 % 0x10, false),
            At(d, p + 2) != HexLetter(u / 0x10 % 0x10, false), At(d, p + 3) != HexLetter(u % 0x10, false)];
    SpellingNotZero(u, ups);
    HasFour(d, p, Spelling(u, ups));
  }

  // Escapes of code points

  /** The surrogates for a scalar value that has no code unit of its own (section 2.1 of RFC 2781). */
  function HighUnit(cp: nat): (u: nat)
    requires 0x1_0000 <= cp <= 0x10FFFF
    ensures 0xD800 <= u < 0xDC00
  {
    0xD800 + (cp - 0x1_0000) / 0x400
  }

  function LowUnit(cp: nat): (u: nat)
    requires 0x1_0000 <= cp <= 0x10FFFF
    ensures 0xDC00 <= u < 0xE000
  {
    0xDC00 + (cp - 0x1_0000) % 0x400
  }

  /** The escape of a scalar value: one code unit or two. */
  function CodeText(cp: nat, ups: seq<bool>): (s: seq<Byte>)
    requires Scalar(cp) && |ups| == 8
    ensures |s| == if cp <= 0xFFFF then 6 else 12
  {
    if cp <= 0xFFFF then [BACKSLASH, 117] + Spelling(cp, ups[..4])
    else [BACKSLASH, 117] + Spelling(HighUnit(cp), ups[..4]) + [BACKSLASH, 117] + Spelling(LowUnit(cp), ups[4..])
  }

  /** The pair is read as the scalar value it stands for, and no other pair is. */
  lemma PairIs(high: nat, low: nat, cp: nat)
    requires 0xD800 <= high < 0xDC00 && 0xDC00 <= low < 0xE000 && 0x1_0000 <= cp <= 0x10FFFF
    ensures (high - 0xD800) * 0x400 + (low - 0xDC00) + 0x1_0000 == cp <==> high == HighUnit(cp) && low == LowUnit(cp)
  {
    if (high - 0xD800) * 0x400 + (low - 0xDC00) + 0x1_0000 == cp {
      DivModUnique(cp - 0x1_0000, 0x400, high - 0xD800, low - 0xDC00);
    }
  }

  ghost predicate IsCode(d: seq<Byte>, p: nat, cp: nat, ups: seq<bool>) {
    Scalar(cp) && |ups| == 8 && Has(d, p, CodeText(cp, ups))
  }

  /** Behind a backslash and u an escape is read as cp if and only if it is one of cp. */
  lemma UnicodeIs(d: seq<Byte>, p: nat, cp: nat)
    requires Scalar(cp) && At(d, p) == BACKSLASH && At(d, p + 1) == 117
    ensures UnicodeAt(d, p) == Unit(cp, if cp <= 0xFFFF then 6 else 12) <==> exists ups: seq<bool> :: IsCode(d, p, cp, ups)
  {
    hide Hex4, Spelling, Has, HighUnit, LowUnit;
    if UnicodeAt(d, p) == Unit(cp, if cp <= 0xFFFF then 6 else 12) {
      var ups := CodeCases(d, p, cp);
      assert IsCode(d, p, cp, ups);
    }
    if ups: seq<bool> :| IsCode(d, p, cp, ups) {
      CodeRead(d, p, cp, ups);
    }
  }

  lemma HasParts(d: seq<Byte>, p: nat, a: seq<Byte>, b: seq<Byte>)
    ensures Has(d, p, a + b) <==> Has(d, p, a) && Has(d, p + |a|, b)
  {
    if Has(d, p, a + b) {
      assert d[p..p + |a|] == d[p..p + |a + b|][..|a|];
      assert d[p + |a|..p + |a| + |b|] == d[p..p + |a + b|][|a|..];
    }
    if Has(d, p, a) && Has(d, p + |a|, b) {
      assert d[p..p + |a + b|] == d[p..p + |a|] + d[p + |a|..p + |a| + |b|];
    }
  }

  lemma HasTwo(d: seq<Byte>, p: nat, a: Byte, b: Byte)
    requires a != 0 && b != 0
    ensures Has(d, p, [a, b]) <==> At(d, p) == a && At(d, p + 1) == b
  {
    if Has(d, p, [a, b]) {
      assert d[p] == d[p..p + 2][0] && d[p + 1] == d[p..p + 2][1];
    }
  }

  lemma HasPair(d: seq<Byte>, p: nat, s: seq<Byte>, t: seq<Byte>)
    requires |s| == 4 && |t| == 4
    ensures Has(d, p, [BACKSLASH, 117] + s + [BACKSLASH, 117] + t) <==>
      && At(d, p) == BACKSLASH && At(d, p + 1) == 117 && Has(d, p + 2, s)
      && At(d, p + 6) == BACKSLASH && At(d, p + 7) == 117 && Has(d, p + 8, t)
  {
    hide Has;
    HasParts(d, p, [BACKSLASH, 117] + s + [BACKSLASH, 117], t);
    HasParts(d, p, [BACKSLASH, 117] + s, [BACKSLASH, 117]);
    HasParts(d, p, [BACKSLASH, 117], s);
    HasTwo(d, p, BACKSLASH, 117);
    HasTwo(d, p + 6, BACKSLASH, 117);
  }

  lemma CodeRead(d: seq<Byte>, p: nat, cp: nat, ups: seq<bool>)
    requires IsCode(d, p, cp, ups)
    ensures At(d, p) == BACKSLASH && At(d, p + 1) == 117
    ensures UnicodeAt(d, p) == Unit(cp, if cp <= 0xFFFF then 6 else 12)
  {
    hide Hex4, Spelling, Has, HighUnit, LowUnit;
    if cp <= 0xFFFF {
      HasParts(d, p, [BACKSLASH, 117], Spelling(cp, ups[..4]));
      HasTwo(d, p, BACKSLASH, 117);
      SpellingRead(d, p + 2, cp, ups[..4]);
    } else {
      HasPair(d, p, Spelling(HighUnit(cp), ups[..4]), Spelling(LowUnit(cp), ups[4..]));
      SpellingRead(d, p + 2, HighUnit(cp), ups[..4]);
      SpellingRead(d, p + 8, LowUnit(cp), ups[4..]);
      PairIs(HighUnit(cp), LowUnit(cp), cp);
    }
  }

  lemma CodeCases(d: seq<Byte>, p: nat, cp: nat) returns (ups: seq<bool>)
    requires Scalar(cp) && At(d, p) == BACKSLASH && At(d, p + 1) == 117
    requires UnicodeAt(d, p) == Unit(cp, if cp <= 0xFFFF then 6 else 12)
    ensures IsCode(d, p, cp, ups)
  {
    hide Hex4, Spelling, Has, HighUnit, LowUnit;
    var high := Hex4(d, p + 2);
    ups := SpelledCases(d, p + 2, high);
    if cp <= 0xFFFF {
      HasParts(d, p, [BACKSLASH, 117], Spelling(cp, ups));
      HasTwo(d, p, BACKSLASH, 117);
      ups := ups + ups;
      assert ups[..4] == ups[4..];
    } else {
      var low := Hex4(d, p + 8);
      PairIs(high, low, cp);
      var lows := SpelledCases(d, p + 8, low);
      HasPair(d, p, Spelling(high, ups), Spelling(low, lows));
      assert (ups + lows)[..4] == ups && (ups + lows)[4..] == lows;
      ups := ups + lows;
    }
  }

  // Strings

  /** What a string is made of (section 2.5 of RFC 4627, with control characters let through): bytes that stand for
      themselves, escapes of two characters, and escapes of code points. */
  datatype Piece = Plain(b: Byte) | Short(c: Byte) | Code(cp: nat, ups: seq<bool>)

  const SHORTS: map<Byte, Byte> := map[QUOTE := QUOTE, BACKSLASH := BACKSLASH, SLASH := SLASH,
    98 := 8, 102 := 12, 110 := 10, 114 := 13, 116 := 9]

  predicate GoodPiece(x: Piece) {
    match x
    case Plain(b) => b != 0 && b != QUOTE && b != BACKSLASH
    case Short(c) => c in SHORTS
    case Code(cp, ups) => Scalar(cp) && |ups| == 8
  }

  /** The characters of the piece, and the bytes it stands for. */
  function PieceText(x: Piece): (s: seq<Byte>)
    requires GoodPiece(x)
    ensures s != []
  {
    match x
    case Plain(b) => [b]
    case Short(c) => [BACKSLASH, c]
    case Code(cp, ups) => CodeText(cp, ups)
  }

  function PieceBytes(x: Piece): seq<Byte>
    requires GoodPiece(x)
  {
    match x
    case Plain(b) => [b]
    case Short(c) => [SHORTS[c]]
    case Code(cp, ups) => Utf8(cp)
  }

  predicate GoodPieces(xs: seq<Piece>) {
    forall i :: 0 <= i < |xs| ==> GoodPiece(xs[i])
  }

  function PiecesText(xs: seq<Piece>): seq<Byte>
    requires GoodPieces(xs)
  {
    if xs == [] then [] else PieceText(xs[0]) + PiecesText(xs[1..])
  }

  function PiecesBytes(xs: seq<Piece>): seq<Byte>
    requires GoodPieces(xs)
  {
    if xs == [] then [] else PieceBytes(xs[0]) + PiecesBytes(xs[1..])
  }

  lemma UnescapeIs(c: Byte)
    ensures if c in SHORTS then Unescape(c) == SHORTS[c] && Unescape(c) != 117 && Unescape(c) != 0
            else Unescape(c) == if c == 117 then 117 else 0
  {
  }

  /** A piece is decoded to the bytes it stands for. */
  lemma PieceRead(d: seq<Byte>, p: nat, x: Piece)
    requires GoodPiece(x) && Has(d, p, PieceText(x))
    ensures Decode(d, p) == Prepend(PieceBytes(x), Decode(d, p + |PieceText(x)|))
  {
    hide Has, CodeText, UnicodeAt, Utf8;
    match x
    case Plain(b) => HasOne(d, p, b);
    case Short(c) =>
      UnescapeIs(c);
      HasTwo(d, p, BACKSLASH, c);
    case Code(cp, ups) => CodeRead(d, p, cp, ups);
  }

  lemma HasOne(d: seq<Byte>, p: nat, b: Byte)
    requires b != 0
    ensures Has(d, p, [b]) <==> At(d, p) == b
  {
    if Has(d, p, [b]) {
      assert d[p] == d[p..p + 1][0];
    }
  }

  /** Pieces and a quote behind them are decoded to the bytes that the pieces stand for. */
  lemma {:induction false} PiecesRead(d: seq<Byte>, p: nat, xs: seq<Piece>)
    requires GoodPieces(xs) && Has(d, p, PiecesText(xs) + [QUOTE])
    ensures Decode(d, p) == Text(PiecesBytes(xs), p + |PiecesText(xs)| + 1)
    decreases |xs|
  {
    hide Has, PieceText, PieceBytes, Decode, GoodPiece;
    if xs == [] {
      assert [] + [QUOTE] == [QUOTE];
      HasOne(d, p, QUOTE);
      DecodeEnd(d, p);
    } else {
      var t, rest := PieceText(xs[0]), PiecesText(xs[1..]);
      assert PiecesText(xs) + [QUOTE] == t + (rest + [QUOTE]);
      HasParts(d, p, t, rest + [QUOTE]);
      PieceRead(d, p, xs[0]);
      PiecesRead(d, p + |t|, xs[1..]);
    }
  }

  /** What is decoded begins with a piece, or it is the end. */
  lemma DecodedPiece(d: seq<Byte>, p: nat) returns (x: Piece)
    requires Decode(d, p).Text? && At(d, p) != QUOTE
    ensures GoodPiece(x) && Has(d, p, PieceText(x))
  {
    hide Has, CodeText, UnicodeAt, Utf8;
    var c := At(d, p);
    if c != BACKSLASH {
      HasOne(d, p, c);
      return Plain(c);
    }
    var e := At(d, p + 1);
    UnescapeIs(e);
    if e != 117 {
      HasTwo(d, p, BACKSLASH, e);
      return Short(e);
    }
    var cp := UnicodeAt(d, p).codepoint;
    UnicodeUnit(d, p);
    var ups := CodeCases(d, p, cp);
    x := Code(cp, ups);
  }

  lemma UnicodeUnit(d: seq<Byte>, p: nat)
    requires UnicodeAt(d, p).Unit?
    ensures var cp := UnicodeAt(d, p).codepoint; Scalar(cp) && UnicodeAt(d, p) == Unit(cp, if cp <= 0xFFFF then 6 else 12)
  {
  }

  lemma PrependText(b: seq<Byte>, r: Decoded)
    requires Prepend(b, r).Text?
    ensures r.Text? && Prepend(b, r) == Text(b + r.s, r.next)
  {
  }

  /** Everything that is decoded is made of pieces. */
  lemma {:induction false} DecodedPieces(d: seq<Byte>, p: nat) returns (xs: seq<Piece>)
    requires Decode(d, p).Text?
    ensures GoodPieces(xs) && Has(d, p, PiecesText(xs) + [QUOTE])
    decreases |d| - p
  {
    hide Has, PieceText, PieceBytes, PiecesText, Decode, GoodPiece;
    DecodedInside(d, p);
    if At(d, p) == QUOTE {
      NoPieces(d, p);
      return [];
    }
    var x := DecodedPiece(d, p);
    PieceRead(d, p, x);
    PrependText(PieceBytes(x), Decode(d, p + |PieceText(x)|));
    var rest := DecodedPieces(d, p + |PieceText(x)|);
    xs := [x] + rest;
    MorePieces(d, p, x, rest);
  }

  lemma DecodedInside(d: seq<Byte>, p: nat)
    requires Decode(d, p).Text?
    ensures p < |d|
  {
  }

  lemma NoPieces(d: seq<Byte>, p: nat)
    requires At(d, p) == QUOTE
    ensures Has(d, p, PiecesText([]) + [QUOTE])
  {
    HasOne(d, p, QUOTE);
    assert PiecesText([]) + [QUOTE] == [QUOTE];
  }

  lemma MorePieces(d: seq<Byte>, p: nat, x: Piece, rest: seq<Piece>)
    requires GoodPiece(x) && GoodPieces(rest)
    requires Has(d, p, PieceText(x)) && Has(d, p + |PieceText(x)|, PiecesText(rest) + [QUOTE])
    ensures GoodPieces([x] + rest) && Has(d, p, PiecesText([x] + rest) + [QUOTE])
  {
    hide Has, PieceText, GoodPiece;
    var xs := [x] + rest;
    assert xs[1..] == rest;
    HasParts(d, p, PieceText(x), PiecesText(rest) + [QUOTE]);
    assert PieceText(x) + (PiecesText(rest) + [QUOTE]) == PiecesText(xs) + [QUOTE];
  }

  ghost predicate Spelled(d: seq<Byte>, p: nat, xs: seq<Piece>, s: seq<Byte>, next: nat) {
    && GoodPieces(xs) && Has(d, p, PiecesText(xs) + [QUOTE])
    && s == PiecesBytes(xs) && next == p + |PiecesText(xs)| + 1
  }

  ghost predicate StringAt(d: seq<Byte>, p: nat, s: seq<Byte>, next: nat) {
    exists xs: seq<Piece> :: Spelled(d, p, xs, s, next)
  }

  /** A string is decoded if and only if it is made of pieces, up to a quote, and then to what they stand for. */
  lemma DecodeIs(d: seq<Byte>, p: nat, s: seq<Byte>, next: nat)
    ensures Decode(d, p) == Text(s, next) <==> StringAt(d, p, s, next)
  {
    hide Has, Decode;
    if Decode(d, p) == Text(s, next) {
      var xs := DecodedPieces(d, p);
      PiecesRead(d, p, xs);
      assert Spelled(d, p, xs, s, next);
    }
    if xs: seq<Piece> :| Spelled(d, p, xs, s, next) {
      PiecesRead(d, p, xs);
    }
  }

  /** A byte is printed as itself, as its short escape if there is one, and otherwise, if it is a control character, as an
      escape of four digits. */
  lemma EscapeForm(b: Byte)
    ensures forall i :: 0 <= i < |Escape(b)| ==> 32 <= Escape(b)[i] != 127
    ensures |Escape(b)| == 2 <==> exists c :: c in SHORTS && SHORTS[c] == b
    ensures |Escape(b)| == 1 ==> Escape(b) == [b]
    ensures |Escape(b)| > 2 ==> (b < 32 || b == 127) && Escape(b) == CodeText(b, seq(8, _ => false))
  {
    assert SHORTS[QUOTE] == QUOTE && SHORTS[BACKSLASH] == BACKSLASH && SHORTS[SLASH] == SLASH;
    assert SHORTS[98] == 8 && SHORTS[102] == 12 && SHORTS[110] == 10 && SHORTS[114] == 13 && SHORTS[116] == 9;
    hide CodeText;
    if b < 32 || b == 127 {
      ControlText(b);
    }
  }

  lemma ControlText(b: Byte)
    requires b < 128
    ensures CodeText(b, seq(8, _ => false)) == [BACKSLASH, 117, 48, 48, HexChar(b / 16), HexChar(b % 16)]
  {
    LowerLetter(0);
    LowerLetter(b / 16);
    LowerLetter(b % 16);
    hide HexLetter, HexChar;
    assert b / 0x1000 == 0 && b / 0x100 % 0x10 == 0 && b / 0x10 % 0x10 == b / 16;
  }

  lemma LowerLetter(v: nat)
    requires v < 16
    ensures HexLetter(v, false) == HexChar(v) && HexChar(0) == 48
  {
  }
}
