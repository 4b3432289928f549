/** `lua_cjson.c`: values, their text, tokens and the grammar, as functions. */
module JsonValues {
  import opened Bytes
  import opened JsonStrings

  /** Lua values that have a text. Numbers are their text; tables are lists of values or of keys and values, in the
      order in which they are gone through. */
  datatype Json =
    | Null
    | Bool(b: bool)
    | Num(lexeme: seq<Byte>)
    | Str(s: seq<Byte>)
    | Arr(items: Items)
    | Obj(members: Members)

  datatype Items = NoItem | Item(value: Json, rest: Items)

  datatype Members = NoMember | Member(key: seq<Byte>, value: Json, rest: Members)

  /** The limits, whether numbers that are not JSON are let through, and the end of the number that starts at a
      position, which is `fpconv_strtod`'s business. */
  datatype Config = Config(encodeMaxDepth: nat, decodeMaxDepth: nat, lenient: bool, num: (seq<Byte>, nat) -> nat)

  // Printing

  const TRUE: seq<Byte> := [116, 114, 117, 101]
  const FALSE: seq<Byte> := [102, 97, 108, 115, 101]
  const NULL: seq<Byte> := [110, 117, 108, 108]

  function Print(v: Json): (t: seq<Byte>) {
    match v
    case Null => NULL
    case Bool(b) => if b then TRUE else FALSE
    case Num(l) => l
    case Str(s) => Quoted(s)
    case Arr(items) => [91] + PrintItems(items) + [93]
    case Obj(members) => [123] + PrintMembers(members) + [125]
  }

  function PrintItems(items: Items): (t: seq<Byte>) {
    match items
    case NoItem => []
    case Item(v, rest) => Print(v) + if rest == NoItem then [] else [44] + PrintItems(rest)
  }

  function PrintMembers(members: Members): (t: seq<Byte>) {
    match members
    case NoMember => []
    case Member(k, v, rest) => Quoted(k) + [58] + Print(v) + if rest == NoMember then [] else [44] + PrintMembers(rest)
  }

  /** How deep tables are nested. */
  function Depth(v: Json): nat {
    match v
    case Arr(items) => 1 + ItemsDepth(items)
    case Obj(members) => 1 + MembersDepth(members)
    case _ => 0
  }

  function Larger(a: nat, b: nat): nat {
    if a < b then b else a
  }

  function ItemsDepth(items: Items): nat {
    match items
    case NoItem => 0
    case Item(v, rest) => Larger(Depth(v), ItemsDepth(rest))
  }

  function MembersDepth(members: Members): nat {
    match members
    case NoMember => 0
    case Member(_, v, rest) => Larger(Depth(v), MembersDepth(rest))
  }

  // Tokens

  datatype Token =
    | ObjBegin | ObjEnd | ArrBegin | ArrEnd | Comma | Colon
    | StrToken(s: seq<Byte>) | NumToken(lexeme: seq<Byte>) | BoolToken(b: bool) | NullToken
    | End | Error

  predicate IsDigit(c: Byte) {
    48 <= c <= 57
  }

  /** `ch | 0x20` for letters */
  function Lower(c: Byte): Byte {
    if 65 <= c <= 90 then c + 32 else c
  }

  /** `strncasecmp` with a word of three letters */
  predicate StartsWith3(d: seq<Byte>, p: nat, a: Byte, b: Byte, c: Byte) {
    Lower(At(d, p)) == a && Lower(At(d, p + 1)) == b && Lower(At(d, p + 2)) == c
  }

  /** `json_is_invalid_number`; bytes from 128 on are negative characters. */
  predicate IsInvalidNumber(d: seq<Byte>, p: nat) {
    if At(d, p) == 43 then true
    else
      var q := if At(d, p) == 45 then p + 1 else p;
      if At(d, q) == 48 then Lower(At(d, q + 1)) == 120 || IsDigit(At(d, q + 1))
      else if At(d, q) <= 57 || At(d, q) >= 128 then false
      else StartsWith3(d, q, 105, 110, 102) || StartsWith3(d, q, 110, 97, 110)
  }

  /** The text at p begins with a word. */
  predicate Holds(d: seq<Byte>, p: nat, w: seq<Byte>) {
    p + |w| <= |d| && d[p..p + |w|] == w
  }

  /** `json_next_number_token` */
  function NumberAt(cfg: Config, d: seq<Byte>, p: nat): (r: (Token, nat))
    requires p <= |d|
    ensures p <= r.1 <= |d| && (r.0 != Error ==> p < r.1)
  {
    var e := cfg.num(d, p);
    if p < e <= |d| then (NumToken(d[p..e]), e) else (Error, p)
  }

  predicate IsSpace(c: Byte) {
    c == 32 || c == 9 || c == 10 || c == 13
  }

  /** Characters that may start a longer token. */
  predicate IsUnknown(c: Byte) {
    c in {102, 105, 73, 110, 78, 116, QUOTE, 43, 45} || IsDigit(c)
  }

  /** `json_next_token`: the next token and the position behind it. */
  function NextToken(cfg: Config, d: seq<Byte>, p: nat): (r: (Token, nat))
    requires p <= |d|
    ensures p <= r.1 <= |d| && (r.0 != End && r.0 != Error ==> p < r.1)
    decreases |d| - p
  {
    var c := At(d, p);
    if IsSpace(c) then NextToken(cfg, d, p + 1)
    else if c == 0 then (End, p)
    else if c == 123 then (ObjBegin, p + 1)
    else if c == 125 then (ObjEnd, p + 1)
    else if c == 91 then (ArrBegin, p + 1)
    else if c == 93 then (ArrEnd, p + 1)
    else if c == 44 then (Comma, p + 1)
    else if c == 58 then (Colon, p + 1)
    else if !IsUnknown(c) then (Error, p)
    else LongToken(cfg, d, p)
  }

  function LongToken(cfg: Config, d: seq<Byte>, p: nat): (r: (Token, nat))
    requires p < |d|
    ensures p <= r.1 <= |d| && (r.0 != Error ==> p < r.1) && r.0 != End
  {
    var c := At(d, p);
    if c == QUOTE then
      var s := Decode(d, p + 1);
      if s.Text? then (StrToken(s.s), s.next) else (Error, p)
    else if c == 45 || IsDigit(c) then
      if !cfg.lenient && IsInvalidNumber(d, p) then (Error, p) else NumberAt(cfg, d, p)
    else if Holds(d, p, TRUE) then (BoolToken(true), p + 4)
    else if Holds(d, p, FALSE) then (BoolToken(false), p + 5)
    else if Holds(d, p, NULL) then (NullToken, p + 4)
    else if cfg.lenient && IsInvalidNumber(d, p) then NumberAt(cfg, d, p)
    else (Error, p)
  }

  // The grammar

  datatype Parsed = Ok(v: Json, next: nat) | Fail

  datatype ParsedItems = OkItems(items: Items, next: nat) | FailItems

  datatype ParsedMembers = OkMembers(members: Members, next: nat) | FailMembers

  /** `lua_rawset`: the value replaces that of the key, or comes in behind. */
  function Put(m: Members, k: seq<Byte>, v: Json): Members {
    match m
    case NoMember => Member(k, v, NoMember)
    case Member(k', v', rest) => if k' == k then Member(k, v, rest) else Member(k', v', Put(rest, k, v))
  }

  /** `lua_rawseti` with the next index */
  function Add(items: Items, v: Json): Items {
    match items
    case NoItem => Item(v, NoItem)
    case Item(v', rest) => Item(v', Add(rest, v))
  }

  /** `json_process_value` of token t, p being behind it. */
  function ParseValue(cfg: Config, d: seq<Byte>, t: Token, p: nat, depth: nat): (r: Parsed)
    requires p <= |d|
    ensures r.Ok? ==> p <= r.next <= |d|
    decreases |d| - p, 2
  {
    match t
    case StrToken(s) => Ok(Str(s), p)
    case NumToken(l) => Ok(Num(l), p)
    case BoolToken(b) => Ok(Bool(b), p)
    case NullToken => Ok(Null, p)
    case ObjBegin =>
      if depth + 1 > cfg.decodeMaxDepth then Fail
      else
        var (t', q) := NextToken(cfg, d, p);
        if t' == ObjEnd then Ok(Obj(NoMember), q)
        else
          var r := ParseMembers(cfg, d, t', q, depth + 1, NoMember);
          if r.OkMembers? then Ok(Obj(r.members), r.next) else Fail
    case ArrBegin =>
      if depth + 1 > cfg.decodeMaxDepth then Fail
      else
        var (t', q) := NextToken(cfg, d, p);
        if t' == ArrEnd then Ok(Arr(NoItem), q)
        else if t' == End || t' == Error then Fail
        else
          var r := ParseItems(cfg, d, t', q, depth + 1, NoItem);
          if r.OkItems? then Ok(Arr(r.items), r.next) else Fail
    case _ => Fail
  }

  /** The loop of `json_parse_object_context`, at a key. */
  function ParseMembers(cfg: Config, d: seq<Byte>, t: Token, p: nat, depth: nat, m: Members): (r: ParsedMembers)
    requires p <= |d|
    ensures r.OkMembers? ==> p <= r.next <= |d|
    decreases |d| - p, 1
  {
    if !t.StrToken? then FailMembers
    else
      var (c, p1) := NextToken(cfg, d, p);
      if c != Colon then FailMembers
      else
        var (t', p2) := NextToken(cfg, d, p1);
        var v := ParseValue(cfg, d, t', p2, depth);
        if v == Fail then FailMembers
        else
          var m' := Put(m, t.s, v.v);
          var (e, p3) := NextToken(cfg, d, v.next);
          if e == ObjEnd then OkMembers(m', p3)
          else if e != Comma then FailMembers
          else
            var (k, p4) := NextToken(cfg, d, p3);
            ParseMembers(cfg, d, k, p4, depth, m')
  }

  /** The loop of `json_parse_array_context`, at a value. */
  function ParseItems(cfg: Config, d: seq<Byte>, t: Token, p: nat, depth: nat, items: Items): (r: ParsedItems)
    requires p <= |d|
    ensures r.OkItems? ==> p <= r.next <= |d|
    decreases |d| - p, 3
  {
    var v := ParseValue(cfg, d, t, p, depth);
    if v == Fail then FailItems
    else
      var items' := Add(items, v.v);
      var (e, p1) := NextToken(cfg, d, v.next);
      if e == ArrEnd then OkItems(items', p1)
      else if e != Comma then FailItems
      else
        var (t', p2) := NextToken(cfg, d, p1);
        ParseItems(cfg, d, t', p2, depth, items')
  }

  /** A zero among the first two bytes tells of another encoding. */
  predicate OtherEncoding(d: seq<Byte>) {
    |d| >= 2 && (d[0] == 0 || d[1] == 0)
  }

  /** `json_decode`: a value and nothing more. */
  function ParseText(cfg: Config, d: seq<Byte>): Parsed {
    if OtherEncoding(d) then Fail
    else
      var (t, p) := NextToken(cfg, d, 0);
      var r := ParseValue(cfg, d, t, p, 0);
      if r.Ok? && NextToken(cfg, d, r.next).0 == End then r else Fail
  }

  // Parsing undoes printing

  /** What comes behind a value in a printed text. */
  predicate Delim(c: Byte) {
    c == 44 || c == 93 || c == 125 || c == 0
  }

  /** The number reader takes this text for a number of just its length, wherever it stands in front of a delimiter. */
  ghost predicate NumOk(cfg: Config, l: seq<Byte>) {
    && l != [] && (l[0] == 45 || IsDigit(l[0])) && 0 !in l
    && forall d: seq<Byte>, p: nat :: Holds(d, p, l) && Delim(At(d, p + |l|)) ==>
         cfg.num(d, p) == p + |l| && (cfg.lenient || !IsInvalidNumber(d, p))
  }

  predicate HasKey(m: Members, k: seq<Byte>) {
    match m
    case NoMember => false
    case Member(k', _, rest) => k' == k || HasKey(rest, k)
  }

  /** Numbers are readable, and keys are distinct, as in a table. */
  ghost predicate ValueOk(cfg: Config, v: Json) {
    match v
    case Num(l) => NumOk(cfg, l)
    case Arr(items) => ItemsOk(cfg, items)
    case Obj(members) => MembersOk(cfg, members)
    case _ => true
  }

  ghost predicate ItemsOk(cfg: Config, items: Items) {
    match items
    case NoItem => true
    case Item(v, rest) => ValueOk(cfg, v) && ItemsOk(cfg, rest)
  }

  ghost predicate MembersOk(cfg: Config, members: Members) {
    match members
    case NoMember => true
    case Member(k, v, rest) => !HasKey(rest, k) && ValueOk(cfg, v) && MembersOk(cfg, rest)
  }

  function Join(a: Items, b: Items): Items {
    match a
    case NoItem => b
    case Item(v, rest) => Item(v, Join(rest, b))
  }

  function JoinMembers(a: Members, b: Members): Members {
    match a
    case NoMember => b
    case Member(k, v, rest) => Member(k, v, JoinMembers(rest, b))
  }

  lemma {:induction false} JoinStep(a: Items, v: Json, b: Items)
    ensures Join(Add(a, v), b) == Join(a, Item(v, b))
  {
    match a
    case NoItem =>
    case Item(v', rest) => JoinStep(rest, v, b);
  }

  lemma {:induction false} JoinMembersStep(a: Members, k: seq<Byte>, v: Json, b: Members)
    requires !HasKey(a, k)
    ensures JoinMembers(Put(a, k, v), b) == JoinMembers(a, Member(k, v, b))
  {
    match a
    case NoMember =>
    case Member(_, _, rest) => JoinMembersStep(rest, k, v, b);
  }

  lemma {:induction false} JoinEnd(a: Items)
    ensures Join(a, NoItem) == a
  {
    match a
    case NoItem =>
    case Item(_, rest) => JoinEnd(rest);
  }

  lemma {:induction false} JoinMembersEnd(a: Members)
    ensures JoinMembers(a, NoMember) == a
  {
    match a
    case NoMember =>
    case Member(_, _, rest) => JoinMembersEnd(rest);
  }

  /** No key of one list is in the other. */
  predicate Apart(a: Members, b: Members) {
    match b
    case NoMember => true
    case Member(k, _, rest) => !HasKey(a, k) && Apart(a, rest)
  }

  lemma {:induction false} ApartPut(a: Members, k: seq<Byte>, v: Json, b: Members)
    requires Apart(a, b) && !HasKey(b, k)
    ensures Apart(Put(a, k, v), b)
  {
    match b
    case NoMember =>
    case Member(k', _, rest) =>
      PutKeys(a, k, v, k');
      ApartPut(a, k, v, rest);
  }

  lemma {:induction false} PutKeys(a: Members, k: seq<Byte>, v: Json, k': seq<Byte>)
    ensures HasKey(Put(a, k, v), k') <==> k' == k || HasKey(a, k')
  {
    match a
    case NoMember =>
    case Member(_, _, rest) => PutKeys(rest, k, v, k');
  }

  lemma HoldsSplit(d: seq<Byte>, p: nat, a: seq<Byte>, b: seq<Byte>)
    requires Holds(d, p, a + b)
    ensures Holds(d, p, a) && Holds(d, p + |a|, b)
    ensures a != [] ==> At(d, p) == a[0]
    ensures |a + b| == |a| + |b|
  {
    var w := d[p..p + |a + b|];
    assert d[p..p + |a|] == w[..|a|] == a;
    assert d[p + |a|..p + |a| + |b|] == w[|a|..] == b;
    assert a != [] ==> d[p] == w[0];
  }

  lemma HoldsFirst(d: seq<Byte>, p: nat, a: seq<Byte>)
    requires Holds(d, p, a) && a != []
    ensures At(d, p) == a[0]
  {
    assert d[p..p + |a|][0] == d[p];
  }

  /** A printed string is read back as a token. */
  lemma StringTrip(cfg: Config, s: seq<Byte>, d: seq<Byte>, p: nat)
    requires Holds(d, p, Quoted(s))
    ensures NextToken(cfg, d, p) == (StrToken(s), p + |Quoted(s)|)
  {
    hide EscapeAll, Decode;
    var e := EscapeAll(s);
    Front([QUOTE], e, [QUOTE]);
    HoldsSplit(d, p, [QUOTE], e + [QUOTE]);
    HoldsSplit(d, p + 1, e, [QUOTE]);
    HoldsFirst(d, p + 1 + |e|, [QUOTE]);
    EscapeRoundTrip(s, d, p + 1);
  }

  lemma NumberTrip(cfg: Config, l: seq<Byte>, d: seq<Byte>, p: nat)
    requires NumOk(cfg, l) && Holds(d, p, l) && Delim(At(d, p + |l|))
    ensures NextToken(cfg, d, p) == (NumToken(l), p + |l|)
  {
    HoldsFirst(d, p, l);
    assert cfg.num(d, p) == p + |l|;
  }

  lemma WordTrip(cfg: Config, w: seq<Byte>, d: seq<Byte>, p: nat)
    requires (w == TRUE || w == FALSE || w == NULL) && Holds(d, p, w)
    ensures NextToken(cfg, d, p) == (if w == TRUE then BoolToken(true) else if w == FALSE then BoolToken(false)
                                     else NullToken, p + |w|)
  {
    HoldsFirst(d, p, w);
    if w == FALSE {
      assert !Holds(d, p, TRUE) by { NotBoth(d, p, TRUE); }
    } else if w == NULL {
      assert !Holds(d, p, TRUE) by { NotBoth(d, p, TRUE); }
      assert !Holds(d, p, FALSE) by { NotBoth(d, p, FALSE); }
    }
  }

  lemma NotBoth(d: seq<Byte>, p: nat, w: seq<Byte>)
    requires w != [] && At(d, p) != w[0]
    ensures !Holds(d, p, w)
  {
    if Holds(d, p, w) {
      HoldsFirst(d, p, w);
    }
  }

  /** A token that is one character. */
  lemma CharTrip(cfg: Config, d: seq<Byte>, p: nat)
    requires p <= |d|
    ensures At(d, p) == 123 ==> NextToken(cfg, d, p) == (ObjBegin, p + 1)
    ensures At(d, p) == 125 ==> NextToken(cfg, d, p) == (ObjEnd, p + 1)
    ensures At(d, p) == 91 ==> NextToken(cfg, d, p) == (ArrBegin, p + 1)
    ensures At(d, p) == 93 ==> NextToken(cfg, d, p) == (ArrEnd, p + 1)
    ensures At(d, p) == 44 ==> NextToken(cfg, d, p) == (Comma, p + 1)
    ensures At(d, p) == 58 ==> NextToken(cfg, d, p) == (Colon, p + 1)
    ensures At(d, p) == 0 ==> NextToken(cfg, d, p) == (End, p)
  {
  }

  /** The next token and the value that it starts. */
  function ReadAt(cfg: Config, d: seq<Byte>, p: nat, depth: nat): Parsed
    requires p <= |d|
  {
    var (t, q) := NextToken(cfg, d, p);
    ParseValue(cfg, d, t, q, depth)
  }

  /** The next token and the rest of an array from there. */
  function ReadItems(cfg: Config, d: seq<Byte>, p: nat, depth: nat, acc: Items): ParsedItems
    requires p <= |d|
  {
    var (t, q) := NextToken(cfg, d, p);
    ParseItems(cfg, d, t, q, depth, acc)
  }

  function ReadMembers(cfg: Config, d: seq<Byte>, p: nat, depth: nat, acc: Members): ParsedMembers
    requires p <= |d|
  {
    var (t, q) := NextToken(cfg, d, p);
    ParseMembers(cfg, d, t, q, depth, acc)
  }

  lemma ItemsStep(cfg: Config, d: seq<Byte>, p: nat, depth: nat, acc: Items, v: Json, n: nat)
    requires p <= |d| && n <= |d| && ReadAt(cfg, d, p, depth) == Ok(v, n)
    ensures At(d, n) == 93 ==> ReadItems(cfg, d, p, depth, acc) == OkItems(Add(acc, v), n + 1)
    ensures At(d, n) == 44 ==> ReadItems(cfg, d, p, depth, acc) == ReadItems(cfg, d, n + 1, depth, Add(acc, v))
    ensures var t := NextToken(cfg, d, p).0; t != ArrEnd && t != ObjEnd && t != End && t != Error
  {
    CharTrip(cfg, d, n);
    hide NextToken;
  }

  lemma MembersStep(cfg: Config, d: seq<Byte>, p: nat, depth: nat, acc: Members, k: seq<Byte>, n1: nat, v: Json, n: nat)
    requires p <= |d| && n1 < |d| && n <= |d| && NextToken(cfg, d, p) == (StrToken(k), n1) && At(d, n1) == 58
    requires ReadAt(cfg, d, n1 + 1, depth) == Ok(v, n)
    ensures At(d, n) == 125 ==> ReadMembers(cfg, d, p, depth, acc) == OkMembers(Put(acc, k, v), n + 1)
    ensures At(d, n) == 44 ==> ReadMembers(cfg, d, p, depth, acc) == ReadMembers(cfg, d, n + 1, depth, Put(acc, k, v))
  {
    hide NextToken, ParseValue, ParseItems;
    CharTrip(cfg, d, n1);
    CharTrip(cfg, d, n);
  }

  /** A printed value is read back, at any depth that leaves room for its own. */
  lemma {:induction false} ValueTrip(cfg: Config, v: Json, d: seq<Byte>, p: nat, depth: nat)
    requires ValueOk(cfg, v) && Holds(d, p, Print(v)) && Delim(At(d, p + |Print(v)|))
    requires depth + Depth(v) <= cfg.decodeMaxDepth
    ensures ReadAt(cfg, d, p, depth) == Ok(v, p + |Print(v)|)
    decreases v
  {
    hide NextToken, NumOk;
    match v
    case Null => WordTrip(cfg, NULL, d, p);
    case Bool(b) => WordTrip(cfg, if b then TRUE else FALSE, d, p);
    case Num(l) => NumberTrip(cfg, l, d, p);
    case Str(s) => StringTrip(cfg, s, d, p);
    case Arr(items) => ArrayTrip(cfg, items, d, p, depth);
    case Obj(members) => ObjectTrip(cfg, members, d, p, depth);
  }

  lemma {:induction false} ArrayTrip(cfg: Config, items: Items, d: seq<Byte>, p: nat, depth: nat)
    requires ItemsOk(cfg, items) && Holds(d, p, Print(Arr(items)))
    requires depth + 1 + ItemsDepth(items) <= cfg.decodeMaxDepth
    ensures ReadAt(cfg, d, p, depth) == Ok(Arr(items), p + |Print(Arr(items))|)
    decreases items, 1
  {
    hide NextToken, ReadAt, Print, PrintItems, ItemsDepth, ItemsOk;
    var t := PrintItems(items);
    var n := p + 1 + |t|;
    PrintArray(items);
    HoldsSplit(d, p, [91], t + [93]);
    HoldsSplit(d, p + 1, t, [93]);
    HoldsFirst(d, n, [93]);
    CharTrip(cfg, d, p);
    CharTrip(cfg, d, n);
    if items == NoItem {
      EmptyArray(cfg, d, p, depth);
    } else {
      ItemsTrip(cfg, items, NoItem, d, p + 1, depth + 1);
      FullArray(cfg, d, p, depth, Join(NoItem, items), n + 1);
    }
  }

  lemma PrintArray(items: Items)
    ensures Print(Arr(items)) == [91] + (PrintItems(items) + [93])
    ensures items == NoItem ==> PrintItems(items) == []
  {
    Front([91], PrintItems(items), [93]);
  }

  lemma EmptyArray(cfg: Config, d: seq<Byte>, p: nat, depth: nat)
    requires p < |d| && NextToken(cfg, d, p) == (ArrBegin, p + 1) && NextToken(cfg, d, p + 1).0 == ArrEnd
    requires depth + 1 <= cfg.decodeMaxDepth
    ensures ReadAt(cfg, d, p, depth) == Ok(Arr(NoItem), NextToken(cfg, d, p + 1).1)
  {
    hide NextToken;
  }

  lemma FullArray(cfg: Config, d: seq<Byte>, p: nat, depth: nat, items: Items, n: nat)
    requires p < |d| && NextToken(cfg, d, p) == (ArrBegin, p + 1) && NextToken(cfg, d, p + 1).0 !in {ArrEnd, End, Error}
    requires depth + 1 <= cfg.decodeMaxDepth && ReadItems(cfg, d, p + 1, depth + 1, NoItem) == OkItems(items, n)
    ensures ReadAt(cfg, d, p, depth) == Ok(Arr(items), n)
  {
    hide NextToken;
  }

  lemma Front(a: seq<Byte>, b: seq<Byte>, c: seq<Byte>)
    ensures (a + b) + c == a + (b + c)
  {
  }

  lemma PrintItem(v: Json, rest: Items)
    ensures rest == NoItem ==> PrintItems(Item(v, rest)) == Print(v)
    ensures rest != NoItem ==> PrintItems(Item(v, rest)) == Print(v) + ([44] + PrintItems(rest))
    ensures Depth(v) <= ItemsDepth(Item(v, rest)) && ItemsDepth(rest) <= ItemsDepth(Item(v, rest))
  {
    assert Print(v) + [] == Print(v);
  }

  lemma {:induction false} ItemsTrip(cfg: Config, items: Items, acc: Items, d: seq<Byte>, p: nat, depth: nat)
    requires items != NoItem && ItemsOk(cfg, items) && Holds(d, p, PrintItems(items))
    requires At(d, p + |PrintItems(items)|) == 93 && depth + ItemsDepth(items) <= cfg.decodeMaxDepth
    ensures ReadItems(cfg, d, p, depth, acc) == OkItems(Join(acc, items), p + |PrintItems(items)| + 1)
    ensures var t := NextToken(cfg, d, p).0; t != ArrEnd && t != End && t != Error
    decreases items, 0
  {
    hide NextToken, ReadItems, ReadAt, Print, PrintItems, Join, Depth, ItemsDepth, ValueOk;
    var v, rest := items.value, items.rest;
    var n := p + |Print(v)|;
    PrintItem(v, rest);
    JoinStep(acc, v, rest);
    if rest == NoItem {
      ValueTrip(cfg, v, d, p, depth);
      ItemsStep(cfg, d, p, depth, acc, v, n);
      JoinEnd(Add(acc, v));
    } else {
      var t := PrintItems(rest);
      HoldsSplit(d, p, Print(v), [44] + t);
      HoldsSplit(d, n, [44], t);
      ValueTrip(cfg, v, d, p, depth);
      ItemsStep(cfg, d, p, depth, acc, v, n);
      ItemsTrip(cfg, rest, Add(acc, v), d, n + 1, depth);
    }
  }

  lemma {:induction false} ObjectTrip(cfg: Config, members: Members, d: seq<Byte>, p: nat, depth: nat)
    requires MembersOk(cfg, members) && Holds(d, p, Print(Obj(members)))
    requires depth + 1 + MembersDepth(members) <= cfg.decodeMaxDepth
    ensures ReadAt(cfg, d, p, depth) == Ok(Obj(members), p + |Print(Obj(members))|)
    decreases members, 1
  {
    hide NextToken, ReadAt, Print, PrintMembers, MembersDepth, MembersOk;
    var t := PrintMembers(members);
    var n := p + 1 + |t|;
    PrintObject(members);
    HoldsSplit(d, p, [123], t + [125]);
    HoldsSplit(d, p + 1, t, [125]);
    HoldsFirst(d, n, [125]);
    CharTrip(cfg, d, p);
    CharTrip(cfg, d, n);
    if members == NoMember {
      EmptyObject(cfg, d, p, depth);
    } else {
      NoneApart(members);
      MembersTrip(cfg, members, NoMember, d, p + 1, depth + 1);
      FullObject(cfg, d, p, depth, JoinMembers(NoMember, members), n + 1);
    }
  }

  lemma PrintObject(members: Members)
    ensures Print(Obj(members)) == [123] + (PrintMembers(members) + [125])
    ensures members == NoMember ==> PrintMembers(members) == []
  {
    Front([123], PrintMembers(members), [125]);
  }

  lemma EmptyObject(cfg: Config, d: seq<Byte>, p: nat, depth: nat)
    requires p < |d| && NextToken(cfg, d, p) == (ObjBegin, p + 1) && NextToken(cfg, d, p + 1).0 == ObjEnd
    requires depth + 1 <= cfg.decodeMaxDepth
    ensures ReadAt(cfg, d, p, depth) == Ok(Obj(NoMember), NextToken(cfg, d, p + 1).1)
  {
    hide NextToken;
  }

  lemma FullObject(cfg: Config, d: seq<Byte>, p: nat, depth: nat, m: Members, n: nat)
    requires p < |d| && NextToken(cfg, d, p) == (ObjBegin, p + 1) && NextToken(cfg, d, p + 1).0 != ObjEnd
    requires depth + 1 <= cfg.decodeMaxDepth && ReadMembers(cfg, d, p + 1, depth + 1, NoMember) == OkMembers(m, n)
    ensures ReadAt(cfg, d, p, depth) == Ok(Obj(m), n)
  {
    hide NextToken;
  }

  lemma {:induction false} NoneApart(m: Members)
    ensures Apart(NoMember, m)
  {
    match m
    case NoMember =>
    case Member(_, _, rest) => NoneApart(rest);
  }

  function MoreMembers(rest: Members): seq<Byte> {
    if rest == NoMember then [] else [44] + PrintMembers(rest)
  }

  lemma PrintMember(k: seq<Byte>, v: Json, rest: Members)
    ensures PrintMembers(Member(k, v, rest)) == Quoted(k) + ([58] + (Print(v) + MoreMembers(rest)))
    ensures Depth(v) <= MembersDepth(Member(k, v, rest)) && MembersDepth(rest) <= MembersDepth(Member(k, v, rest))
    ensures MoreMembers(rest) == if rest == NoMember then [] else [44] + PrintMembers(rest)
  {
    hide Quoted, Print;
    var q, w, t := Quoted(k), Print(v), MoreMembers(rest);
    assert PrintMembers(Member(k, v, rest)) == ((q + [58]) + w) + t;
    Front(q + [58], w, t);
    Front(q, [58], w + t);
  }

  /** Where the parts of a printed member are. */
  lemma MemberParts(d: seq<Byte>, p: nat, k: seq<Byte>, v: Json, rest: Members)
    requires Holds(d, p, PrintMembers(Member(k, v, rest)))
    ensures var n1 := p + |Quoted(k)|; var n := n1 + 1 + |Print(v)|;
      && Holds(d, p, Quoted(k)) && At(d, n1) == 58 && Holds(d, n1 + 1, Print(v))
      && (rest == NoMember ==> p + |PrintMembers(Member(k, v, rest))| == n)
      && (rest != NoMember ==> At(d, n) == 44 && Holds(d, n + 1, PrintMembers(rest))
                               && p + |PrintMembers(Member(k, v, rest))| == n + 1 + |PrintMembers(rest)|)
  {
    hide Quoted, Print, PrintMembers, MoreMembers;
    PrintMember(k, v, rest);
    HoldsThree(d, p, Quoted(k), [58], Print(v), MoreMembers(rest));
    if rest != NoMember {
      HoldsSplit(d, p + |Quoted(k)| + 1 + |Print(v)|, [44], PrintMembers(rest));
    }
  }

  lemma HoldsThree(d: seq<Byte>, p: nat, a: seq<Byte>, b: seq<Byte>, c: seq<Byte>, t: seq<Byte>)
    requires Holds(d, p, a + (b + (c + t))) && b != []
    ensures Holds(d, p, a) && At(d, p + |a|) == b[0] && Holds(d, p + |a| + |b|, c) && Holds(d, p + |a| + |b| + |c|, t)
    ensures |a + (b + (c + t))| == |a| + |b| + |c| + |t|
  {
    HoldsSplit(d, p, a, b + (c + t));
    HoldsSplit(d, p + |a|, b, c + t);
    HoldsSplit(d, p + |a| + |b|, c, t);
  }

  lemma {:induction false} MembersTrip(cfg: Config, m: Members, acc: Members, d: seq<Byte>, p: nat, depth: nat)
    requires m != NoMember && MembersOk(cfg, m) && Holds(d, p, PrintMembers(m)) && Apart(acc, m)
    requires At(d, p + |PrintMembers(m)|) == 125 && depth + MembersDepth(m) <= cfg.decodeMaxDepth
    ensures ReadMembers(cfg, d, p, depth, acc) == OkMembers(JoinMembers(acc, m), p + |PrintMembers(m)| + 1)
    ensures NextToken(cfg, d, p).0 != ObjEnd
    decreases m, 0
  {
    hide NextToken, ReadMembers, ReadAt, Quoted, Print, PrintMembers, Depth, MembersDepth, ValueOk,
      MoreMembers, Put, JoinMembers, HasKey;
    var k, v, rest := m.key, m.value, m.rest;
    var n1 := p + |Quoted(k)|;
    var n := n1 + 1 + |Print(v)|;
    PrintMember(k, v, rest);
    MemberParts(d, p, k, v, rest);
    StringTrip(cfg, k, d, p);
    JoinMembersStep(acc, k, v, rest);
    ValueTrip(cfg, v, d, n1 + 1, depth);
    MembersStep(cfg, d, p, depth, acc, k, n1, v, n);
    if rest == NoMember {
      JoinMembersEnd(Put(acc, k, v));
    } else {
      ApartPut(acc, k, v, rest);
      MembersTrip(cfg, rest, Put(acc, k, v), d, n + 1, depth);
    }
  }

  lemma {:induction false} PrintedClean(cfg: Config, v: Json)
    requires ValueOk(cfg, v)
    ensures 0 !in Print(v) && Print(v) != []
  {
    match v
    case Arr(items) => ItemsClean(cfg, items);
    case Obj(members) => MembersClean(cfg, members);
    case _ =>
  }

  lemma {:induction false} ItemsClean(cfg: Config, items: Items)
    requires ItemsOk(cfg, items)
    ensures 0 !in PrintItems(items)
  {
    match items
    case NoItem =>
    case Item(v, rest) =>
      PrintedClean(cfg, v);
      ItemsClean(cfg, rest);
  }

  lemma {:induction false} MembersClean(cfg: Config, m: Members)
    requires MembersOk(cfg, m)
    ensures 0 !in PrintMembers(m)
  {
    match m
    case NoMember =>
    case Member(_, v, rest) =>
      PrintedClean(cfg, v);
      MembersClean(cfg, rest);
  }

  /** Parsing the printed text of a value gives the value and uses up the text. */
  lemma RoundTrip(cfg: Config, v: Json)
    requires ValueOk(cfg, v) && Depth(v) <= cfg.decodeMaxDepth
    ensures ParseText(cfg, Print(v)) == Ok(v, |Print(v)|)
  {
    hide NextToken, Print, ParseValue, ValueOk, Depth;
    var d := Print(v);
    PrintedClean(cfg, v);
    assert Holds(d, 0, d) by { assert d[0..|d|] == d; }
    ValueTrip(cfg, v, d, 0, 0);
    WholeText(cfg, d, v);
  }

  /** A text that is read as a value to its end. */
  lemma WholeText(cfg: Config, d: seq<Byte>, v: Json)
    requires 0 !in d && ReadAt(cfg, d, 0, 0) == Ok(v, |d|)
    ensures ParseText(cfg, d) == Ok(v, |d|)
  {
    hide NextToken, ParseValue;
    CharTrip(cfg, d, |d|);
  }
}
