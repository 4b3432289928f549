/** `lua_cjson.c`: the tokenizer and the recursive-descent parser, in place over the text. */
module JsonParser {
  import opened Bytes
  import opened Strbufs
  import opened JsonStrings
  import opened JsonValues

  /** A value, or an error thrown by a long jump. */
  datatype Result = Value(v: Json) | Thrown

  class Parser {
    const cfg: Config
    const d: seq<Byte>
    /** The temporary string, large enough for the whole text. */
    const tmp: Strbuf
    var ptr: nat
    var depth: nat

    ghost predicate Valid()
      reads this, tmp
    {
      ptr <= |d| && tmp.Valid() && tmp.size > |d|
    }

    constructor (cfg: Config, d: seq<Byte>)
      ensures Valid() && ptr == 0 && depth == 0 && this.cfg == cfg && this.d == d && fresh(tmp) && fresh(tmp.buf)
    {
      this.cfg, this.d, ptr, depth := cfg, d, 0, 0;
      tmp := new Strbuf(|d|);
    }

    /** `json_append_unicode_escape`: at a backslash and a u. */
    method AppendUnicodeEscape() returns (ok: bool)
      requires Valid() && tmp.EmptyLength() >= |d| - ptr
      modifies this`ptr, tmp, tmp.buf
      ensures Valid() && tmp.buf == old(tmp.buf) && ok == UnicodeAt(d, old(ptr)).Unit? && ptr >= old(ptr)
      ensures ok ==> ptr == old(ptr) + UnicodeAt(d, old(ptr)).length && tmp.EmptyLength() >= |d| - ptr
      ensures ok ==> tmp.Contents() == old(tmp.Contents()) + Utf8(UnicodeAt(d, old(ptr)).codepoint)
    {
      hide Utf8, Hex4;
      var escapeLen := 6;
      var codepoint := Hex4(d, ptr + 2);
      if codepoint < 0 {
        return false;
      }
      if 0xD800 <= codepoint <= 0xDFFF {
        if codepoint >= 0xDC00 {
          return false;
        }
        if At(d, ptr + escapeLen) != BACKSLASH || At(d, ptr + escapeLen + 1) != 117 {
          return false;
        }
        var low := Hex4(d, ptr + 2 + escapeLen);
        if low < 0 || !(0xDC00 <= low <= 0xDFFF) {
          return false;
        }
        codepoint := (codepoint - 0xD800) * 0x400 + (low - 0xDC00) + 0x1_0000;
        escapeLen := 12;
      }
      tmp.AppendMemUnsafe(Utf8(codepoint));
      ptr := ptr + escapeLen;
      ok := true;
    }

    /** One round of the loop of `json_next_string_token`. */
    method StringStep() returns (ok: bool)
      requires Valid() && tmp.EmptyLength() >= |d| - ptr && At(d, ptr) != QUOTE
      modifies this`ptr, tmp, tmp.buf
      ensures Valid() && tmp.buf == old(tmp.buf)
      ensures ok ==> old(ptr) < ptr && tmp.EmptyLength() >= |d| - ptr
      ensures ok ==> Prepend(old(tmp.Contents()), Decode(d, old(ptr))) == Prepend(tmp.Contents(), Decode(d, ptr))
      ensures !ok ==> !Decode(d, old(ptr)).Text? && ptr >= old(ptr)
    {
      hide Utf8, UnicodeAt;
      var ch := At(d, ptr);
      if ch == 0 {
        return false;
      }
      if ch == BACKSLASH {
        ch := Unescape(At(d, ptr + 1));
        if ch == 117 {
          ghost var p := ptr;
          ok := AppendUnicodeEscape();
          if ok {
            PrependTwice(old(tmp.Contents()), Utf8(UnicodeAt(d, p).codepoint), Decode(d, ptr));
          }
          return;
        }
        if ch == 0 {
          return false;
        }
        ptr := ptr + 1;
      }
      tmp.AppendCharUnsafe(ch);
      ptr := ptr + 1;
      PrependTwice(old(tmp.Contents()), [ch], Decode(d, ptr));
      ok := true;
    }

    /** `json_next_string_token`: nothing is checked when bytes are appended; no more are appended than were read. */
    method NextStringToken() returns (t: Token)
      requires Valid() && At(d, ptr) == QUOTE
      modifies this`ptr, tmp, tmp.buf
      ensures Valid() && tmp.buf == old(tmp.buf) && ptr >= old(ptr)
      ensures var s := Decode(d, old(ptr) + 1); if s.Text? then t == StrToken(s.s) && ptr == s.next else t == Error
    {
      hide Decode;
      ghost var start := ptr + 1;
      ptr := ptr + 1;
      tmp.Reset();
      var ok := true;
      PrependNone(Decode(d, ptr));
      while ok && At(d, ptr) != QUOTE
        invariant Valid() && tmp.buf == old(tmp.buf) && ptr >= start
        invariant ok ==> tmp.EmptyLength() >= |d| - ptr
        invariant ok ==> Decode(d, start) == Prepend(tmp.Contents(), Decode(d, ptr))
        invariant !ok ==> !Decode(d, start).Text?
        decreases ok, |d| - ptr
      {
        ok := StringStep();
      }
      if !ok {
        return Error;
      }
      DecodeEnd(d, ptr);
      ptr := ptr + 1;
      t := StrToken(tmp.buf[..tmp.length]);
      assert tmp.Contents() + [] == tmp.Contents();
    }

    /** `json_next_number_token` */
    method NextNumberToken() returns (t: Token)
      requires Valid()
      modifies this`ptr
      ensures Valid() && t == NumberAt(cfg, d, old(ptr)).0 && ptr == NumberAt(cfg, d, old(ptr)).1
    {
      var r := NumberAt(cfg, d, ptr);
      t, ptr := r.0, r.1;
    }

    /** The tokens of more than one character. */
    method NextLongToken() returns (t: Token)
      requires Valid() && ptr < |d|
      modifies this`ptr, tmp, tmp.buf
      ensures Valid() && tmp.buf == old(tmp.buf) && ptr >= old(ptr) && t == LongToken(cfg, d, old(ptr)).0
      ensures t != Error ==> ptr == LongToken(cfg, d, old(ptr)).1
    {
      hide Decode, IsInvalidNumber, NumberAt, Holds;
      var ch := At(d, ptr);
      if ch == QUOTE {
        t := NextStringToken();
      } else if ch == 45 || IsDigit(ch) {
        if !cfg.lenient && IsInvalidNumber(d, ptr) {
          return Error;
        }
        t := NextNumberToken();
      } else if Holds(d, ptr, TRUE) {
        WordLength(d, ptr, TRUE);
        ptr := ptr + 4;
        t := BoolToken(true);
      } else if Holds(d, ptr, FALSE) {
        WordLength(d, ptr, FALSE);
        ptr := ptr + 5;
        t := BoolToken(false);
      } else if Holds(d, ptr, NULL) {
        WordLength(d, ptr, NULL);
        ptr := ptr + 4;
        t := NullToken;
      } else if cfg.lenient && IsInvalidNumber(d, ptr) {
        t := NextNumberToken();
      } else {
        t := Error;
      }
    }

    /** `json_next_token` */
    method NextToken() returns (t: Token)
      requires Valid()
      modifies this`ptr, tmp, tmp.buf
      ensures Valid() && tmp.buf == old(tmp.buf) && ptr >= old(ptr) && t == JsonValues.NextToken(cfg, d, old(ptr)).0
      ensures t != Error ==> ptr == JsonValues.NextToken(cfg, d, old(ptr)).1
    {
      hide LongToken, Decode;
      while IsSpace(At(d, ptr))
        invariant Valid() && tmp.buf == old(tmp.buf) && ptr >= old(ptr)
        invariant JsonValues.NextToken(cfg, d, ptr) == JsonValues.NextToken(cfg, d, old(ptr))
        decreases |d| - ptr
      {
        ptr := ptr + 1;
      }
      var ch := At(d, ptr);
      if ch == 0 {
        return End;
      }
      if IsUnknown(ch) {
        t := NextLongToken();
        return;
      }
      t := SingleToken(ch);
      if t != Error {
        ptr := ptr + 1;
      }
    }

    /** `json_process_value`: the value that token t starts; the depth is afterwards what it was before. */
    method ProcessValue(t: Token) returns (r: Result)
      requires Valid()
      modifies this`ptr, this`depth, tmp, tmp.buf
      ensures Valid() && tmp.buf == old(tmp.buf) && ptr >= old(ptr)
      ensures Returns(ParseValue(cfg, d, t, old(ptr), old(depth)), r, ptr)
      ensures r.Value? ==> depth == old(depth)
      decreases |d| - ptr, if t == ObjBegin || t == ArrBegin then 4 else 0
    {
      match t {
        case StrToken(s) => r := Value(Str(s));
        case NumToken(l) => r := Value(Num(l));
        case BoolToken(b) => r := Value(Bool(b));
        case NullToken => r := Value(Null);
        case ObjBegin => r := ParseObjectContext();
        case ArrBegin => r := ParseArrayContext();
        case _ => r := Thrown;
      }
    }

    /** `json_decode_descend` */
    method Descend() returns (ok: bool)
      modifies this`depth
      ensures depth == old(depth) + 1 && ok == (depth <= cfg.decodeMaxDepth)
    {
      depth := depth + 1;
      ok := depth <= cfg.decodeMaxDepth;
    }

    /** `json_parse_array_context` */
    method ParseArrayContext() returns (r: Result)
      requires Valid()
      modifies this`ptr, this`depth, tmp, tmp.buf
      ensures Valid() && tmp.buf == old(tmp.buf) && ptr >= old(ptr)
      ensures Returns(ParseValue(cfg, d, ArrBegin, old(ptr), old(depth)), r, ptr)
      ensures r.Value? ==> depth == old(depth)
      decreases |d| - ptr, 3
    {
      hide JsonValues.NextToken, ParseItems, ParseMembers, ParseValue;
      ArrayValue(cfg, d, ptr, depth);
      var ok := Descend();
      if !ok {
        return Thrown;
      }
      ghost var q := JsonValues.NextToken(cfg, d, ptr).1;
      var t := NextToken();
      if t == ArrEnd {
        depth := depth - 1;
        return Value(Arr(NoItem));
      }
      AfterError(cfg, d, t, q, ptr, depth, NoItem, NoMember);
      r := ArrayItems(t);
      if r.Value? {
        depth := depth - 1;
      }
    }

    /** Its loop, at the first element. */
    method ArrayItems(first: Token) returns (r: Result)
      requires Valid()
      modifies this`ptr, this`depth, tmp, tmp.buf
      ensures Valid() && tmp.buf == old(tmp.buf) && ptr >= old(ptr)
      ensures ReturnsItems(ParseItems(cfg, d, first, old(ptr), old(depth), NoItem), r, ptr)
      ensures r.Value? ==> depth == old(depth)
      decreases |d| - ptr, if first == ObjBegin || first == ArrBegin then 6 else 2
    {
      hide JsonValues.NextToken, ParseItems, ParseMembers, ParseValue;
      ghost var all := ParseItems(cfg, d, first, ptr, depth, NoItem);
      var t, items := first, NoItem;
      r := Thrown;
      var more := true;
      while more
        invariant Valid() && tmp.buf == old(tmp.buf) && ptr >= old(ptr) && (more && ptr == old(ptr) ==> t == first)
        invariant more ==> depth == old(depth) && ParseItems(cfg, d, t, ptr, depth, items) == all
        invariant !more ==> ReturnsItems(all, r, ptr) && (r.Value? ==> depth == old(depth))
        decreases more, |d| - ptr
      {
        more, r, t, items := ArrayStep(t, items);
      }
    }

    /** One round: an element and what follows it. */
    method ArrayStep(t: Token, items: Items) returns (more: bool, r: Result, t': Token, items': Items)
      requires Valid()
      modifies this`ptr, this`depth, tmp, tmp.buf
      ensures Valid() && tmp.buf == old(tmp.buf) && ptr >= old(ptr)
      ensures more ==> depth == old(depth) && old(ptr) < ptr
      ensures more ==>
        ParseItems(cfg, d, t', ptr, depth, items') == ParseItems(cfg, d, t, old(ptr), old(depth), items)
      ensures !more ==> ReturnsItems(ParseItems(cfg, d, t, old(ptr), old(depth), items), r, ptr)
      ensures !more && r.Value? ==> depth == old(depth)
      decreases |d| - ptr, if t == ObjBegin || t == ArrBegin then 5 else 1
    {
      hide JsonValues.NextToken, ParseMembers, ParseValue;
      t', items' := t, items;
      r := ProcessValue(t);
      if r == Thrown {
        return false, r, t', items';
      }
      items' := Add(items, r.v);
      var e := NextToken();
      if e == ArrEnd {
        return false, Value(Arr(items')), t', items';
      }
      if e != Comma {
        return false, Thrown, t', items';
      }
      ghost var q := JsonValues.NextToken(cfg, d, ptr).1;
      t' := NextToken();
      AfterError(cfg, d, t', q, ptr, depth, items', NoMember);
      return true, r, t', items';
    }

    /** `json_parse_object_context` */
    method ParseObjectContext() returns (r: Result)
      requires Valid()
      modifies this`ptr, this`depth, tmp, tmp.buf
      ensures Valid() && tmp.buf == old(tmp.buf) && ptr >= old(ptr)
      ensures Returns(ParseValue(cfg, d, ObjBegin, old(ptr), old(depth)), r, ptr)
      ensures r.Value? ==> depth == old(depth)
      decreases |d| - ptr, 3
    {
      hide JsonValues.NextToken, ParseItems, ParseMembers, ParseValue;
      ObjectValue(cfg, d, ptr, depth);
      var ok := Descend();
      if !ok {
        return Thrown;
      }
      ghost var q := JsonValues.NextToken(cfg, d, ptr).1;
      var t := NextToken();
      if t == ObjEnd {
        depth := depth - 1;
        return Value(Obj(NoMember));
      }
      AfterError(cfg, d, t, q, ptr, depth, NoItem, NoMember);
      r := ObjectMembers(t);
      if r.Value? {
        depth := depth - 1;
      }
    }

    /** Its loop, at the first key. */
    method ObjectMembers(first: Token) returns (r: Result)
      requires Valid()
      modifies this`ptr, this`depth, tmp, tmp.buf
      ensures Valid() && tmp.buf == old(tmp.buf) && ptr >= old(ptr)
      ensures ReturnsMembers(ParseMembers(cfg, d, first, old(ptr), old(depth), NoMember), r, ptr)
      ensures r.Value? ==> depth == old(depth)
      decreases |d| - ptr, 2
    {
      hide JsonValues.NextToken, ParseItems, ParseMembers, ParseValue;
      ghost var all := ParseMembers(cfg, d, first, ptr, depth, NoMember);
      var t, members := first, NoMember;
      r := Thrown;
      var more := true;
      while more
        invariant Valid() && tmp.buf == old(tmp.buf) && ptr >= old(ptr)
        invariant more ==> depth == old(depth) && ParseMembers(cfg, d, t, ptr, depth, members) == all
        invariant !more ==> ReturnsMembers(all, r, ptr) && (r.Value? ==> depth == old(depth))
        decreases more, |d| - ptr
      {
        more, r, t, members := ObjectStep(t, members);
      }
    }

    /** One round: a key, a colon, a value and what follows it. */
    method ObjectStep(t: Token, members: Members) returns (more: bool, r: Result, t': Token, members': Members)
      requires Valid()
      modifies this`ptr, this`depth, tmp, tmp.buf
      ensures Valid() && tmp.buf == old(tmp.buf) && ptr >= old(ptr)
      ensures more ==> depth == old(depth) && old(ptr) < ptr
      ensures more ==>
        ParseMembers(cfg, d, t', ptr, depth, members') == ParseMembers(cfg, d, t, old(ptr), old(depth), members)
      ensures !more ==> ReturnsMembers(ParseMembers(cfg, d, t, old(ptr), old(depth), members), r, ptr)
      ensures !more && r.Value? ==> depth == old(depth)
      decreases |d| - ptr, 1
    {
      hide JsonValues.NextToken, ParseItems, ParseValue;
      t', members', r := t, members, Thrown;
      if !t.StrToken? {
        return false, r, t', members';
      }
      var c := NextToken();
      if c != Colon {
        return false, r, t', members';
      }
      ghost var q := JsonValues.NextToken(cfg, d, ptr).1;
      c := NextToken();
      AfterError(cfg, d, c, q, ptr, depth, NoItem, members);
      r := ProcessValue(c);
      if r == Thrown {
        return false, r, t', members';
      }
      members' := Put(members, t.s, r.v);
      var e := NextToken();
      if e == ObjEnd {
        return false, Value(Obj(members')), t', members';
      }
      if e != Comma {
        return false, Thrown, t', members';
      }
      q := JsonValues.NextToken(cfg, d, ptr).1;
      t' := NextToken();
      AfterError(cfg, d, t', q, ptr, depth, NoItem, members');
      return true, r, t', members';
    }
  }

  /** `json_decode` */
  method DecodeText(cfg: Config, d: seq<Byte>) returns (r: Result)
    ensures var s := ParseText(cfg, d); if r.Value? then s.Ok? && s.v == r.v else s == Fail
  {
    hide JsonValues.NextToken, ParseValue;
    if |d| >= 2 && (d[0] == 0 || d[1] == 0) {
      return Thrown;
    }
    var json := new Parser(cfg, d);
    ghost var q := JsonValues.NextToken(cfg, d, 0).1;
    var t := json.NextToken();
    AfterError(cfg, d, t, q, json.ptr, 0, NoItem, NoMember);
    r := json.ProcessValue(t);
    if r.Value? {
      t := json.NextToken();
      if t != End {
        r := Thrown;
      }
    }
  }

  /** At a token that is an error the position does not matter. */
  lemma AfterError(cfg: Config, d: seq<Byte>, t: Token, p: nat, q: nat, depth: nat, items: Items, members: Members)
    requires p <= |d| && q <= |d| && (t != Error ==> p == q)
    ensures ParseItems(cfg, d, t, q, depth, items) == ParseItems(cfg, d, t, p, depth, items)
    ensures ParseMembers(cfg, d, t, q, depth, members) == ParseMembers(cfg, d, t, p, depth, members)
    ensures ParseValue(cfg, d, t, q, depth) == ParseValue(cfg, d, t, p, depth)
  {
    hide JsonValues.NextToken;
  }

  /** What an opening bracket means for the grammar. */
  lemma ArrayValue(cfg: Config, d: seq<Byte>, p: nat, depth: nat)
    requires p <= |d|
    ensures var s := ParseValue(cfg, d, ArrBegin, p, depth); var (t, q) := JsonValues.NextToken(cfg, d, p);
      if depth + 1 > cfg.decodeMaxDepth then s == Fail
      else if t == ArrEnd then s == Ok(Arr(NoItem), q)
      else
        var r := ParseItems(cfg, d, t, q, depth + 1, NoItem);
        s == if r.OkItems? then Ok(Arr(r.items), r.next) else Fail
  {
    hide JsonValues.NextToken;
    var (t, q) := JsonValues.NextToken(cfg, d, p);
    assert t == End || t == Error ==> ParseItems(cfg, d, t, q, depth + 1, NoItem) == FailItems;
  }

  lemma ObjectValue(cfg: Config, d: seq<Byte>, p: nat, depth: nat)
    requires p <= |d|
    ensures var s := ParseValue(cfg, d, ObjBegin, p, depth); var (t, q) := JsonValues.NextToken(cfg, d, p);
      if depth + 1 > cfg.decodeMaxDepth then s == Fail
      else if t == ObjEnd then s == Ok(Obj(NoMember), q)
      else
        var r := ParseMembers(cfg, d, t, q, depth + 1, NoMember);
        s == if r.OkMembers? then Ok(Obj(r.members), r.next) else Fail
  {
    hide JsonValues.NextToken;
  }

  /** A thrown error or a value, and the position behind it, as in the grammar. */
  ghost predicate Returns(s: Parsed, r: Result, ptr: nat) {
    if r.Value? then s == Ok(r.v, ptr) else s == Fail
  }

  ghost predicate ReturnsItems(s: ParsedItems, r: Result, ptr: nat) {
    if r.Value? then s.OkItems? && r.v == Arr(s.items) && s.next == ptr else s == FailItems
  }

  ghost predicate ReturnsMembers(s: ParsedMembers, r: Result, ptr: nat) {
    if r.Value? then s.OkMembers? && r.v == Obj(s.members) && s.next == ptr else s == FailMembers
  }

  /** `ch2token` for the tokens of one character */
  function SingleToken(c: Byte): Token {
    match c
    case 123 => ObjBegin
    case 125 => ObjEnd
    case 91 => ArrBegin
    case 93 => ArrEnd
    case 44 => Comma
    case 58 => Colon
    case _ => Error
  }

  lemma PrependTwice(a: seq<Byte>, b: seq<Byte>, r: Decoded)
    ensures Prepend(a, Prepend(b, r)) == Prepend(a + b, r)
  {
    if r.Text? {
      Front(a, b, r.s);
    }
  }

  lemma PrependNone(r: Decoded)
    ensures Prepend([], r) == r
  {
  }

  lemma WordLength(d: seq<Byte>, p: nat, w: seq<Byte>)
    requires Holds(d, p, w)
    ensures p + |w| <= |d|
  {
  }
}
