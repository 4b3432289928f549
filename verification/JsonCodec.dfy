/** `lua_cjson.c`: printing into a buffer and parsing in place. */
module JsonCodec {
  import opened Bytes
  import opened Strbufs
  import opened JsonStrings
  import opened JsonValues

  // Printing

  /** One byte of a string; `char2escape` has an entry for it or not. There is room for six bytes. */
  method AppendEscaped(json: Strbuf, c: Byte)
    requires json.Valid() && json.Amortized() && json.EmptyLength() >= 6
    modifies json, json.buf
    ensures json.Valid() && json.Amortized() && json.Contents() == old(json.Contents()) + Escape(c)
    ensures json.EmptyLength() >= old(json.EmptyLength()) - 6
    ensures json.increment == old(json.increment) && json.buf == old(json.buf)
  {
    var escstr := Escape(c);
    if |escstr| > 1 {
      json.AppendString(escstr);
    } else {
      assert escstr == [c];
      json.AppendCharUnsafe(c);
    }
  }

  /** `json_append_string`: room for the worst case is made first, and what is appended relies on it. */
  method AppendString(json: Strbuf, str: seq<Byte>)
    requires json.Valid() && json.Amortized()
    modifies json, json.buf
    ensures json.Valid() && json.Amortized() && json.Contents() == old(json.Contents()) + Quoted(str)
    ensures json.increment == old(json.increment) && (json.buf == old(json.buf) || fresh(json.buf))
  {
    hide Escape, EscapeAll;
    ghost var before := json.Contents();
    json.EnsureEmptyLength(|str| * 6 + 2);
    json.AppendCharUnsafe(QUOTE);
    ghost var buf := json.buf;
    var i := 0;
    EscapeStep(str[..0]);
    while i < |str|
      invariant 0 <= i <= |str| && json.Valid() && json.Amortized() && json.buf == buf
      invariant json.Contents() == before + [QUOTE] + EscapeAll(str[..i])
      invariant json.EmptyLength() >= (|str| - i) * 6 + 1 && json.increment == old(json.increment)
    {
      AppendEscaped(json, str[i]);
      EscapeLast(str, i);
      Front(before + [QUOTE], EscapeAll(str[..i]), Escape(str[i]));
      i := i + 1;
    }
    assert str[..i] == str;
    json.AppendCharUnsafe(QUOTE);
    Front(before, [QUOTE], EscapeAll(str));
    Front(before, [QUOTE] + EscapeAll(str), [QUOTE]);
  }

  lemma {:induction false} EscapeLast(s: seq<Byte>, i: nat)
    requires i < |s|
    ensures EscapeAll(s[..i + 1]) == EscapeAll(s[..i]) + Escape(s[i])
    decreases i
  {
    hide Escape;
    if i == 0 {
      assert s[..1] == [s[0]] && s[..0] == [];
      assert EscapeAll([s[0]]) == Escape(s[0]) + EscapeAll([]);
    } else {
      EscapeLast(s[1..], i - 1);
      assert s[..i + 1][1..] == s[1..][..i] && s[..i][1..] == s[1..][..i - 1];
      Front(Escape(s[0]), EscapeAll(s[1..][..i - 1]), Escape(s[i]));
    }
  }

  /** `json_append_data`: the text of the value, unless it is nested too deeply; then an error is thrown. */
  method AppendData(cfg: Config, json: Strbuf, v: Json, depth: nat) returns (ok: bool)
    requires json.Valid() && json.Amortized() && depth <= cfg.encodeMaxDepth
    modifies json, json.buf
    ensures json.Valid() && json.Amortized() && json.increment == old(json.increment)
    ensures json.buf == old(json.buf) || fresh(json.buf)
    ensures ok <==> depth + Depth(v) <= cfg.encodeMaxDepth
    ensures ok ==> json.Contents() == old(json.Contents()) + Print(v)
    decreases v, 1
  {
    hide EscapeAll;
    ok := true;
    match v {
      case Null => json.AppendMem(NULL);
      case Bool(b) => json.AppendMem(if b then TRUE else FALSE);
      case Num(l) => json.AppendMem(l);
      case Str(s) => AppendString(json, s);
      case Arr(items) =>
        if depth + 1 > cfg.encodeMaxDepth {
          return false;
        }
        ok := AppendArray(cfg, json, items, depth + 1);
      case Obj(members) =>
        if depth + 1 > cfg.encodeMaxDepth {
          return false;
        }
        ok := AppendObject(cfg, json, members, depth + 1);
    }
  }

  /** What is printed of the elements that are left. */
  function ItemsLeft(left: Items, comma: bool): seq<Byte> {
    if left == NoItem then [] else (if comma then [44] else []) + PrintItems(left)
  }

  lemma ItemsLeftStep(left: Items, comma: bool)
    requires left != NoItem
    ensures ItemsLeft(left, comma) == ((if comma then [44] else []) + Print(left.value)) + ItemsLeft(left.rest, true)
    ensures ItemsDepth(left) == Larger(Depth(left.value), ItemsDepth(left.rest))
  {
    Front(if comma then [44] else [], Print(left.value), ItemsLeft(left.rest, true));
  }

  /** `json_append_array` */
  method AppendArray(cfg: Config, json: Strbuf, items: Items, depth: nat) returns (ok: bool)
    requires json.Valid() && json.Amortized() && depth <= cfg.encodeMaxDepth
    modifies json, json.buf
    ensures json.Valid() && json.Amortized() && json.increment == old(json.increment)
    ensures json.buf == old(json.buf) || fresh(json.buf)
    ensures ok <==> depth + ItemsDepth(items) <= cfg.encodeMaxDepth
    ensures ok ==> json.Contents() == old(json.Contents()) + Print(Arr(items))
    decreases items, 0
  {
    hide Print, PrintItems, ItemsDepth, Depth, ItemsLeft;
    ghost var before := json.Contents();
    json.AppendChar(91);
    var comma, left := false, items;
    ghost var done: seq<Byte> := [];
    ItemsStart(items, before);
    ok := true;
    while left != NoItem && ok
      invariant json.Valid() && json.Amortized() && json.increment == old(json.increment)
      invariant json.buf == old(json.buf) || fresh(json.buf)
      invariant left == items || left < items
      invariant ok ==> json.Contents() == before + [91] + done && PrintItems(items) == done + ItemsLeft(left, comma)
      invariant ok ==> (depth + ItemsDepth(items) <= cfg.encodeMaxDepth <==>
                        depth + ItemsDepth(left) <= cfg.encodeMaxDepth)
      invariant !ok ==> depth + ItemsDepth(items) > cfg.encodeMaxDepth
      decreases left, ok
    {
      ItemsLeftStep(left, comma);
      ghost var more := (if comma then [44] else []) + Print(left.value);
      ghost var sofar := json.Contents();
      if comma {
        json.AppendChar(44);
      }
      ok := AppendData(cfg, json, left.value, depth);
      Front(done, more, ItemsLeft(left.rest, true));
      Front(before + [91], done, more);
      CommaFront(sofar, comma, Print(left.value));
      comma, left, done := true, left.rest, done + more;
    }
    if ok {
      ItemsEnd(items, done, comma, before);
      json.AppendChar(93);
    }
  }

  lemma CommaFront(a: seq<Byte>, comma: bool, t: seq<Byte>)
    ensures (if comma then a + [44] else a) + t == a + ((if comma then [44] else []) + t)
  {
  }

  lemma ItemsStart(items: Items, before: seq<Byte>)
    ensures PrintItems(items) == [] + ItemsLeft(items, false) && before + [91] == before + [91] + []
  {
  }

  lemma ItemsEnd(items: Items, done: seq<Byte>, comma: bool, before: seq<Byte>)
    requires PrintItems(items) == done + ItemsLeft(NoItem, comma)
    ensures before + [91] + done + [93] == before + Print(Arr(items))
    ensures ItemsDepth(NoItem) == 0
  {
    assert done + [] == done;
    Front(before, [91], done);
    Front(before, [91] + done, [93]);
  }

  function MembersLeft(left: Members, comma: bool): seq<Byte> {
    if left == NoMember then [] else (if comma then [44] else []) + PrintMembers(left)
  }

  lemma MembersLeftStep(left: Members, comma: bool)
    requires left != NoMember
    ensures MembersLeft(left, comma) ==
      ((if comma then [44] else []) + ((Quoted(left.key) + [58]) + Print(left.value))) + MembersLeft(left.rest, true)
    ensures MembersDepth(left) == Larger(Depth(left.value), MembersDepth(left.rest))
  {
    hide Quoted;
    Front(if comma then [44] else [], Quoted(left.key) + [58] + Print(left.value), MembersLeft(left.rest, true));
  }

  /** `json_append_object`, for string keys */
  method AppendObject(cfg: Config, json: Strbuf, members: Members, depth: nat) returns (ok: bool)
    requires json.Valid() && json.Amortized() && depth <= cfg.encodeMaxDepth
    modifies json, json.buf
    ensures json.Valid() && json.Amortized() && json.increment == old(json.increment)
    ensures json.buf == old(json.buf) || fresh(json.buf)
    ensures ok <==> depth + MembersDepth(members) <= cfg.encodeMaxDepth
    ensures ok ==> json.Contents() == old(json.Contents()) + Print(Obj(members))
    decreases members, 0
  {
    hide Print, PrintMembers, MembersDepth, Depth, MembersLeft, Quoted;
    ghost var before := json.Contents();
    json.AppendChar(123);
    var comma, left := false, members;
    ghost var done: seq<Byte> := [];
    MembersStart(members, before);
    ok := true;
    while left != NoMember && ok
      invariant json.Valid() && json.Amortized() && json.increment == old(json.increment)
      invariant json.buf == old(json.buf) || fresh(json.buf)
      invariant left == members || left < members
      invariant ok ==> json.Contents() == before + [123] + done
      invariant ok ==> PrintMembers(members) == done + MembersLeft(left, comma)
      invariant ok ==> (depth + MembersDepth(members) <= cfg.encodeMaxDepth <==>
                        depth + MembersDepth(left) <= cfg.encodeMaxDepth)
      invariant !ok ==> depth + MembersDepth(members) > cfg.encodeMaxDepth
      decreases left, ok
    {
      MembersLeftStep(left, comma);
      ghost var one := (Quoted(left.key) + [58]) + Print(left.value);
      ghost var more := (if comma then [44] else []) + one;
      ghost var sofar := json.Contents();
      if comma {
        json.AppendChar(44);
      }
      ghost var start := json.Contents();
      AppendString(json, left.key);
      json.AppendChar(58);
      ok := AppendData(cfg, json, left.value, depth);
      Front(start, Quoted(left.key), [58]);
      Front(start, Quoted(left.key) + [58], Print(left.value));
      Front(done, more, MembersLeft(left.rest, true));
      Front(before + [123], done, more);
      CommaFront(sofar, comma, one);
      comma, left, done := true, left.rest, done + more;
    }
    if ok {
      MembersEnd(members, done, comma, before);
      json.AppendChar(125);
    }
  }

  lemma MembersStart(members: Members, before: seq<Byte>)
    ensures PrintMembers(members) == [] + MembersLeft(members, false) && before + [123] == before + [123] + []
  {
  }

  lemma MembersEnd(members: Members, done: seq<Byte>, comma: bool, before: seq<Byte>)
    requires PrintMembers(members) == done + MembersLeft(NoMember, comma)
    ensures before + [123] + done + [125] == before + Print(Obj(members))
    ensures MembersDepth(NoMember) == 0
  {
    assert done + [] == done;
    Front(before, [123], done);
    Front(before, [123] + done, [125]);
  }

  /** `json_encode`; nothing if the value is nested too deeply. */
  method Encode(cfg: Config, v: Json) returns (ok: bool, text: seq<Byte>)
    ensures ok <==> Depth(v) <= cfg.encodeMaxDepth
    ensures ok ==> text == Print(v)
  {
    hide Print, Depth;
    var json := new Strbuf(0);
    ok := AppendData(cfg, json, v, 0);
    text := json.buf[..json.length];
    assert ok ==> text == [] + Print(v);
  }
}
