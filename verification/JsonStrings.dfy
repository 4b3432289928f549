/** `lua_cjson.c`: strings with their escapes, and the UTF-8 form of code points. */
module JsonStrings {
  import opened Arith
  import opened Bytes

  const QUOTE: Byte := 34
  const SLASH: Byte := 47
  const BACKSLASH: Byte := 92

  /** The character at a position; the text ends with a zero. */
  function At(d: seq<Byte>, p: nat): Byte {
    if p < |d| then d[p] else 0
  }

  // Code points

  /** Not a surrogate, and in range (section 3 of RFC 3629). */
  predicate Scalar(cp: int) {
    0 <= cp <= 0x10FFFF && !(0xD800 <= cp <= 0xDFFF)
  }

  /** `codepoint_to_utf8`, for what fits into four bytes. */
  function Utf8(cp: nat): (u: seq<Byte>)
    requires cp <= 0x1FFFFF
    ensures 1 <= |u| <= 4
    ensures cp <= 0xFFFF ==> |u| <= 3
  {
    if cp <= 0x7F then [cp]
    else if cp <= 0x7FF then [0xC0 + cp / 0x40, 0x80 + cp % 0x40]
    else if cp <= 0xFFFF then [0xE0 + cp / 0x1000, 0x80 + cp / 0x40 % 0x40, 0x80 + cp % 0x40]
    else [0xF0 + cp / 0x4_0000, 0x80 + cp / 0x1000 % 0x40, 0x80 + cp / 0x40 % 0x40, 0x80 + cp % 0x40]
  }

  predicate Tail(b: Byte) {
    0x80 <= b <= 0xBF
  }

  /** The code point that a sequence of bytes stands for, after the table of section 3 of RFC 3629: lead byte, tail
      bytes, shortest form only, no surrogates. -1 for anything else. */
  function Utf8Value(u: seq<Byte>): int {
    if |u| == 1 && u[0] <= 0x7F then u[0]
    else if |u| == 2 && 0xC2 <= u[0] <= 0xDF && Tail(u[1]) then
      ((u[0] as int) - 0xC0) * 0x40 + u[1] - 0x80
    else if |u| == 3 && 0xE0 <= u[0] <= 0xEF && Tail(u[1]) && Tail(u[2])
      && (u[0] == 0xE0 ==> u[1] >= 0xA0) && (u[0] == 0xED ==> u[1] <= 0x9F) then
      ((u[0] as int) - 0xE0) * 0x1000 + ((u[1] as int) - 0x80) * 0x40 + u[2] - 0x80
    else if |u| == 4 && 0xF0 <= u[0] <= 0xF4 && Tail(u[1]) && Tail(u[2]) && Tail(u[3])
      && (u[0] == 0xF0 ==> u[1] >= 0x90) && (u[0] == 0xF4 ==> u[1] <= 0x8F) then
      ((u[0] as int) - 0xF0) * 0x4_0000 + ((u[1] as int) - 0x80) * 0x1000 + ((u[2] as int) - 0x80) * 0x40 + u[3] - 0x80
    else -1
  }

  /** Of the byte sequences just the UTF-8 form of a scalar value stands for it. */
  lemma Utf8Unique(cp: nat, u: seq<Byte>)
    requires Scalar(cp)
    ensures Utf8Value(u) == cp <==> u == Utf8(cp)
  {
    if Utf8Value(u) == cp {
      Utf8Bytes(u);
    }
    if u == Utf8(cp) {
      Utf8Reads(cp);
    }
  }

  lemma Utf8Reads(cp: nat)
    requires Scalar(cp)
    ensures Utf8Value(Utf8(cp)) == cp
  {
    if cp <= 0xFFFF {
      Utf8Short(cp);
    } else {
      Utf8Long(cp);
    }
  }

  lemma Utf8Short(cp: nat)
    requires Scalar(cp) && cp <= 0xFFFF
    ensures Utf8Value(Utf8(cp)) == cp
  {
  }

  lemma Utf8Long(cp: nat)
    requires Scalar(cp) && cp > 0xFFFF
    ensures Utf8Value(Utf8(cp)) == cp
  {
    var a, b, c, e: nat := cp / 0x4_0000, cp / 0x1000 % 0x40, cp / 0x40 % 0x40, cp % 0x40;
    assert cp == a * 0x4_0000 + b * 0x1000 + c * 0x40 + e;
  }

  lemma Utf8Bytes(u: seq<Byte>)
    requires Utf8Value(u) >= 0
    ensures Scalar(Utf8Value(u)) && u == Utf8(Utf8Value(u))
  {
    if |u| == 1 {
      assert Utf8(Utf8Value(u)) == u;
    } else if |u| == 2 {
      TwoBytes(u, u[0] - 0xC0, u[1] - 0x80);
    } else if |u| == 3 {
      ThreeBytes(u, u[0] - 0xE0, u[1] - 0x80, u[2] - 0x80);
    } else {
      FourBytes(u, u[0] - 0xF0, u[1] - 0x80, u[2] - 0x80, u[3] - 0x80);
    }
  }

  lemma TwoBytes(u: seq<Byte>, a: int, b: int)
    requires |u| == 2 && Utf8Value(u) >= 0 && u[0] == 0xC0 + a && u[1] == 0x80 + b
    ensures Scalar(Utf8Value(u)) && u == Utf8(Utf8Value(u))
  {
  }

  lemma ThreeBytes(u: seq<Byte>, a: int, b: int, c: int)
    requires |u| == 3 && Utf8Value(u) >= 0 && u[0] == 0xE0 + a && u[1] == 0x80 + b && u[2] == 0x80 + c
    ensures Scalar(Utf8Value(u)) && u == Utf8(Utf8Value(u))
  {
    var cp := a * 0x1000 + b * 0x40 + c;
    assert cp / 0x1000 == a && cp / 0x40 % 0x40 == b && cp % 0x40 == c;
  }

  lemma FourBytes(u: seq<Byte>, a: int, b: int, c: int, e: int)
    requires |u| == 4 && Utf8Value(u) >= 0
    requires u[0] == 0xF0 + a && u[1] == 0x80 + b && u[2] == 0x80 + c && u[3] == 0x80 + e
    ensures Scalar(Utf8Value(u)) && u == Utf8(Utf8Value(u))
  {
    SixBits(a, b, c, e, a * 0x4_0000 + b * 0x1000 + c * 0x40 + e);
  }

  lemma SixBits(a: int, b: int, c: int, e: int, cp: int)
    requires 0 <= b < 0x40 && 0 <= c < 0x40 && 0 <= e < 0x40 && cp == a * 0x4_0000 + b * 0x1000 + c * 0x40 + e
    ensures cp / 0x4_0000 == a && cp / 0x1000 % 0x40 == b && cp / 0x40 % 0x40 == c && cp % 0x40 == e
  {
    DivModUnique(cp, 0x4_0000, a, b * 0x1000 + c * 0x40 + e);
    DivModUnique(cp, 0x1000, a * 0x40 + b, c * 0x40 + e);
    DivModUnique(a * 0x40 + b, 0x40, a, b);
    DivModUnique(cp, 0x40, a * 0x1000 + b * 0x40 + c, e);
    DivModUnique(a * 0x1000 + b * 0x40 + c, 0x40, a * 0x40 + b, c);
  }

  // Escapes

  /** `hexdigit2int` */
  function HexDigit(c: Byte): (v: int)
    ensures -1 <= v < 16
  {
    if 48 <= c <= 57 then c - 48
    else if 97 <= c <= 102 then c - 97 + 10
    else if 65 <= c <= 70 then c - 65 + 10
    else -1
  }

  /** `decode_hex4` */
  function Hex4(d: seq<Byte>, p: nat): (v: int)
    ensures -1 <= v <= 0xFFFF
    ensures v >= 0 ==> p + 4 <= |d|
  {
    var a, b, c, e := HexDigit(At(d, p)), HexDigit(At(d, p + 1)), HexDigit(At(d, p + 2)), HexDigit(At(d, p + 3));
    if a < 0 || b < 0 || c < 0 || e < 0 then -1 else a * 0x1000 + b * 0x100 + c * 0x10 + e
  }

  /** A code point and the length of the escape it came from. */
  datatype Unit = Unit(codepoint: nat, length: nat) | NoUnit

  /** The escape at p, one code unit or a pair of surrogates (section 2.2 of RFC 2781). */
  function UnicodeAt(d: seq<Byte>, p: nat): (r: Unit)
    ensures r.Unit? ==> Scalar(r.codepoint) && p + r.length <= |d|
    ensures r.Unit? ==> r.length == if r.codepoint <= 0xFFFF then 6 else 12
  {
    var high := Hex4(d, p + 2);
    if high < 0 then NoUnit
    else if !(0xD800 <= high <= 0xDFFF) then Unit(high, 6)
    else if high >= 0xDC00 || At(d, p + 6) != BACKSLASH || At(d, p + 7) != 117 then NoUnit
    else
      var low := Hex4(d, p + 8);
      if low < 0 || !(0xDC00 <= low <= 0xDFFF) then NoUnit
      else Unit((high - 0xD800) * 0x400 + (low - 0xDC00) + 0x1_0000, 12)
  }

  /** `escape2char`; zero is an error. */
  function Unescape(c: Byte): Byte {
    if c == QUOTE || c == BACKSLASH || c == SLASH then c
    else if c == 98 then 8
    else if c == 116 then 9
    else if c == 110 then 10
    else if c == 102 then 12
    else if c == 114 then 13
    else if c == 117 then 117
    else 0
  }

  datatype Decoded = Text(s: seq<Byte>, next: nat) | Unended | BadEscape | BadUnicode

  function Prepend(s: seq<Byte>, r: Decoded): Decoded {
    if r.Text? then Text(s + r.s, r.next) else r
  }

  /** The string that starts at p, behind its quote, up to and with the closing quote. */
  function Decode(d: seq<Byte>, p: nat): (r: Decoded)
    ensures r.Text? ==> p + |r.s| < r.next <= |d|
    decreases |d| - p
  {
    var c := At(d, p);
    if c == QUOTE then Text([], p + 1)
    else if c == 0 then Unended
    else if c != BACKSLASH then Prepend([c], Decode(d, p + 1))
    else
      var e := Unescape(At(d, p + 1));
      if e == 117 then
        var u := UnicodeAt(d, p);
        if u.Unit? then Prepend(Utf8(u.codepoint), Decode(d, p + u.length)) else BadUnicode
      else if e == 0 then BadEscape
      else Prepend([e], Decode(d, p + 2))
  }

  function HexChar(v: nat): Byte
    requires v < 16
  {
    if v < 10 then 48 + v else 87 + v
  }

  /** `char2escape`; a byte without an entry stands for itself. */
  function Escape(b: Byte): (e: seq<Byte>)
    ensures 1 <= |e| <= 6 && 0 !in e
  {
    if b == 8 then [BACKSLASH, 98]
    else if b == 9 then [BACKSLASH, 116]
    else if b == 10 then [BACKSLASH, 110]
    else if b == 12 then [BACKSLASH, 102]
    else if b == 13 then [BACKSLASH, 114]
    else if b < 32 || b == 127 then [BACKSLASH, 117, 48, 48, HexChar(b / 16), HexChar(b % 16)]
    else if b == QUOTE || b == SLASH || b == BACKSLASH then [BACKSLASH, b]
    else [b]
  }

  function EscapeAll(s: seq<Byte>): (e: seq<Byte>)
    ensures |s| <= |e| <= 6 * |s| && 0 !in e
  {
    if s == [] then [] else Escape(s[0]) + EscapeAll(s[1..])
  }

  /** A string as it is printed. */
  function Quoted(s: seq<Byte>): seq<Byte> {
    [QUOTE] + EscapeAll(s) + [QUOTE]
  }

  /** One escaped byte is read back as that byte. */
  lemma EscapeRead(b: Byte, d: seq<Byte>, p: nat)
    requires p + |Escape(b)| <= |d| && d[p..p + |Escape(b)|] == Escape(b)
    ensures Decode(d, p) == Prepend([b], Decode(d, p + |Escape(b)|))
  {
    var e := Escape(b);
    var part := d[p..p + |e|];
    if |e| == 6 {
      assert At(d, p) == part[0] && At(d, p + 1) == part[1] && At(d, p + 2) == part[2];
      assert At(d, p + 3) == part[3] && At(d, p + 4) == part[4] && At(d, p + 5) == part[5];
      UnicodeRead(b, d, p);
    } else if |e| == 2 {
      assert At(d, p) == part[0] && At(d, p + 1) == part[1];
    } else {
      assert At(d, p) == part[0];
    }
  }

  lemma UnicodeRead(b: Byte, d: seq<Byte>, p: nat)
    requires b < 32 || b == 127
    requires At(d, p) == BACKSLASH && At(d, p + 1) == 117 && At(d, p + 2) == 48 && At(d, p + 3) == 48
    requires At(d, p + 4) == HexChar(b / 16) && At(d, p + 5) == HexChar(b % 16)
    ensures Decode(d, p) == Prepend([b], Decode(d, p + 6))
  {
    HexRead(b);
    assert Hex4(d, p + 2) == b;
    assert Utf8(b) == [b];
  }

  lemma HexRead(b: Byte)
    ensures HexDigit(HexChar(b / 16)) == b / 16 && HexDigit(HexChar(b % 16)) == b % 16
  {
  }

  lemma EscapeStep(s: seq<Byte>)
    ensures s == [] ==> EscapeAll(s) == []
    ensures s != [] ==> EscapeAll(s) == Escape(s[0]) + EscapeAll(s[1..])
  {
  }

  lemma DecodeEnd(d: seq<Byte>, p: nat)
    requires At(d, p) == QUOTE
    ensures Decode(d, p) == Text([], p + 1)
  {
  }

  /** Decoding undoes escaping, for every string of bytes and whatever follows. */
  lemma {:induction false} EscapeRoundTrip(s: seq<Byte>, d: seq<Byte>, p: nat)
    requires p + |EscapeAll(s)| < |d| && d[p..p + |EscapeAll(s)|] == EscapeAll(s) && d[p + |EscapeAll(s)|] == QUOTE
    ensures Decode(d, p) == Text(s, p + |EscapeAll(s)| + 1)
    decreases |s|
  {
    hide Decode, Escape, EscapeAll;
    EscapeStep(s);
    if s == [] {
      DecodeEnd(d, p);
    } else {
      var n, e := |Escape(s[0])|, EscapeAll(s);
      assert d[p..p + n] == d[p..p + |e|][..n];
      assert d[p + n..p + |e|] == d[p..p + |e|][n..];
      EscapeRead(s[0], d, p);
      EscapeRoundTrip(s[1..], d, p + n);
      assert [s[0]] + s[1..] == s;
    }
  }
}
