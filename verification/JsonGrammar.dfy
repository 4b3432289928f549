/** The grammar of JSON texts, as derivations. */
module JsonGrammar {
  import opened Bytes
  import JsonStrings
  import JsonEscapes
  import opened JsonValues

  // Tokens

  /** White space (section 2 of RFC 4627). */
  const BLANKS: set<Byte> := {32, 9, 10, 13}

  ghost predicate Blank(d: seq<Byte>, p: nat, s: nat) {
    p <= s <= |d| && forall k :: p <= k < s ==> d[k] in BLANKS
  }

  /** The tokens of one character. */
  function Mark(t: Token): char {
    match t
    case ObjBegin => '{'
    case ObjEnd => '}'
    case ArrBegin => '['
    case ArrEnd => ']'
    case Comma => ','
    case Colon => ':'
    case _ => ' '
  }

  /** At s stands a word in letters of either case. */
  predicate WordAt(d: seq<Byte>, s: nat, w: string) {
    forall k :: 0 <= k < |w| ==> IsLetter(JsonStrings.At(d, s + k), w[k])
  }

  predicate IsLetter(c: Byte, l: char) {
    c == l as int || ('a' <= l <= 'z' && c + 32 == l as int)
  }

  /** The forms that only lenient readers take: a plus sign, and behind an optional minus sign a zero in front of a digit,
      hexadecimal, infinity and not-a-number. */
  predicate OddNumber(d: seq<Byte>, s: nat) {
    var q := if JsonStrings.At(d, s) == 45 then s + 1 else s;
    || JsonStrings.At(d, s) == 43
    || (JsonStrings.At(d, q) == 48 && IsDigit(JsonStrings.At(d, q + 1)))
    || WordAt(d, q, "0x") || WordAt(d, q, "inf") || WordAt(d, q, "nan")
  }

  lemma WordIs(d: seq<Byte>, s: nat, a: char, b: char, c: char)
    requires 'a' <= a <= 'z' && 'a' <= b <= 'z' && 'a' <= c <= 'z'
    ensures WordAt(d, s, [a, b, c]) <==> StartsWith3(d, s, a as int, b as int, c as int)
  {
    var w := [a, b, c];
    assert w[0] == a && w[1] == b && w[2] == c;
    if StartsWith3(d, s, a as int, b as int, c as int) {
      assert forall k :: 0 <= k < 3 ==> IsLetter(JsonStrings.At(d, s + k), w[k]);
    }
    if WordAt(d, s, w) {
      assert IsLetter(JsonStrings.At(d, s + 0), w[0]);
      assert IsLetter(JsonStrings.At(d, s + 1), w[1]) && IsLetter(JsonStrings.At(d, s + 2), w[2]);
    }
  }

  lemma HexWord(d: seq<Byte>, s: nat)
    ensures WordAt(d, s, "0x") <==> JsonStrings.At(d, s) == 48 && Lower(JsonStrings.At(d, s + 1)) == 120
  {
    var w := "0x";
    if WordAt(d, s, w) {
      assert IsLetter(JsonStrings.At(d, s + 0), w[0]) && IsLetter(JsonStrings.At(d, s + 1), w[1]);
    }
  }

  lemma OddIs(d: seq<Byte>, s: nat)
    ensures IsInvalidNumber(d, s) <==> OddNumber(d, s)
  {
    hide WordAt, StartsWith3;
    var q := if JsonStrings.At(d, s) == 45 then s + 1 else s;
    HexWord(d, q);
    WordIs(d, q, 'i', 'n', 'f');
    WordIs(d, q, 'n', 'a', 'n');
    assert "inf" == ['i', 'n', 'f'] && "nan" == ['n', 'a', 'n'];
    StartsFirst(d, q);
  }

  lemma StartsFirst(d: seq<Byte>, q: nat)
    ensures StartsWith3(d, q, 105, 110, 102) ==> JsonStrings.At(d, q) in {105, 73}
    ensures StartsWith3(d, q, 110, 97, 110) ==> JsonStrings.At(d, q) in {110, 78}
  {
  }

  /** A number may be read at s: in strict mode one with a digit or a minus sign in front and of no odd form, in lenient
      mode one of those or one of an odd form. */
  predicate NumberStart(cfg: Config, d: seq<Byte>, s: nat) {
    var c := JsonStrings.At(d, s);
    if c == 45 || IsDigit(c) then cfg.lenient || !OddNumber(d, s) else cfg.lenient && OddNumber(d, s)
  }

  /** The characters from s to q are those of token t. */
  ghost predicate Spells(cfg: Config, d: seq<Byte>, s: nat, t: Token, q: nat) {
    match t
    case StrToken(v) => JsonStrings.At(d, s) == JsonStrings.QUOTE && JsonEscapes.StringAt(d, s + 1, v, q)
    case NumToken(l) => NumberStart(cfg, d, s) && cfg.num(d, s) == q && s < q <= |d| && l == d[s..q]
    case BoolToken(b) => Holds(d, s, if b then TRUE else FALSE) && q == s + if b then 4 else 5
    case NullToken => Holds(d, s, NULL) && q == s + 4
    case End => JsonStrings.At(d, s) == 0 && q == s
    case Error => false
    case _ => JsonStrings.At(d, s) == Mark(t) as int && q == s + 1
  }

  ghost predicate SpellsFrom(cfg: Config, d: seq<Byte>, p: nat, s: nat, t: Token, q: nat) {
    Blank(d, p, s) && Spells(cfg, d, s, t, q)
  }

  /** White space and then token t up to q. */
  ghost predicate Reads(cfg: Config, d: seq<Byte>, p: nat, t: Token, q: nat) {
    exists s: nat :: SpellsFrom(cfg, d, p, s, t, q)
  }

  lemma {:induction false} BlankSkipped(cfg: Config, d: seq<Byte>, p: nat, s: nat)
    requires Blank(d, p, s)
    ensures NextToken(cfg, d, p) == NextToken(cfg, d, s)
    decreases s - p
  {
    if p < s {
      BlankSkipped(cfg, d, p + 1, s);
    }
  }

  lemma {:induction false} SkipBlank(cfg: Config, d: seq<Byte>, p: nat) returns (s: nat)
    requires p <= |d|
    ensures Blank(d, p, s) && !IsSpace(JsonStrings.At(d, s)) && NextToken(cfg, d, p) == NextToken(cfg, d, s)
    decreases |d| - p
  {
    if IsSpace(JsonStrings.At(d, p)) {
      s := SkipBlank(cfg, d, p + 1);
    } else {
      s := p;
    }
  }

  /** Without white space in front. */
  lemma SpellsIs(cfg: Config, d: seq<Byte>, s: nat, t: Token, q: nat)
    requires s <= |d| && !IsSpace(JsonStrings.At(d, s)) && t != Error
    ensures NextToken(cfg, d, s) == (t, q) <==> Spells(cfg, d, s, t, q)
  {
    hide LongToken, IsInvalidNumber, OddNumber, JsonEscapes.StringAt, NumberStart, Holds;
    WordsFirst(d, s);
    NumberFirst(cfg, d, s);
    if s < |d| && JsonStrings.At(d, s) != 0 {
      LongIs(cfg, d, s, t, q);
    }
  }

  lemma NumberFirst(cfg: Config, d: seq<Byte>, s: nat)
    ensures var c := JsonStrings.At(d, s); NumberStart(cfg, d, s) ==> IsDigit(c) || c in {43, 45, 105, 73, 110, 78}
  {
    hide IsInvalidNumber, OddNumber;
    OddIs(d, s);
    OddFirst(d, s);
  }

  /** The longer tokens. */
  lemma LongIs(cfg: Config, d: seq<Byte>, s: nat, t: Token, q: nat)
    requires s < |d| && IsUnknown(d[s]) ==> JsonStrings.At(d, s) != 0
    requires s < |d| && t != Error
    ensures IsUnknown(d[s]) ==>
      (LongToken(cfg, d, s) == (t, q) <==> (t.StrToken? || t.NumToken? || t.BoolToken? || t == NullToken) && Spells(cfg, d, s, t, q))
  {
    hide IsInvalidNumber, OddNumber, JsonStrings.Decode, Holds, JsonEscapes.StringAt;
    OddIs(d, s);
    OddFirst(d, s);
    WordsFirst(d, s);
    if t.StrToken? {
      JsonEscapes.DecodeIs(d, s + 1, t.s, q);
    }
  }

  lemma OddFirst(d: seq<Byte>, s: nat)
    ensures IsInvalidNumber(d, s) ==> JsonStrings.At(d, s) in {43, 45, 48, 105, 73, 110, 78}
  {
  }

  lemma WordsFirst(d: seq<Byte>, s: nat)
    ensures Holds(d, s, TRUE) ==> JsonStrings.At(d, s) == 116
    ensures Holds(d, s, FALSE) ==> JsonStrings.At(d, s) == 102
    ensures Holds(d, s, NULL) ==> JsonStrings.At(d, s) == 110 && !IsInvalidNumber(d, s)
  {
    if Holds(d, s, TRUE) { HoldsFirst(d, s, TRUE); }
    if Holds(d, s, FALSE) { HoldsFirst(d, s, FALSE); }
    if Holds(d, s, NULL) {
      HoldsFirst(d, s, NULL);
      assert d[s..s + 4][1] == d[s + 1];
    }
  }

  lemma NoBlankSpells(cfg: Config, d: seq<Byte>, s: nat, t: Token, q: nat)
    requires Spells(cfg, d, s, t, q)
    ensures !IsSpace(JsonStrings.At(d, s)) && t != Error
  {
    hide IsInvalidNumber, JsonEscapes.StringAt;
    WordsFirst(d, s);
    OddIs(d, s);
    OddFirst(d, s);
    hide Holds, OddNumber;
  }

  /** The tokenizer finds a token if and only if it is there. */
  lemma TokenIs(cfg: Config, d: seq<Byte>, p: nat, t: Token, q: nat)
    requires p <= |d| && t != Error
    ensures NextToken(cfg, d, p) == (t, q) <==> Reads(cfg, d, p, t, q)
  {
    hide NextToken, Spells, IsSpace;
    if NextToken(cfg, d, p) == (t, q) {
      var s := SkipBlank(cfg, d, p);
      SpellsIs(cfg, d, s, t, q);
      assert SpellsFrom(cfg, d, p, s, t, q);
    }
    if Reads(cfg, d, p, t, q) {
      var s: nat :| SpellsFrom(cfg, d, p, s, t, q);
      NoBlankSpells(cfg, d, s, t, q);
      BlankSkipped(cfg, d, p, s);
      SpellsIs(cfg, d, s, t, q);
    }
  }

  // Values

  /** A derivation, with the positions between its parts: behind the bracket, of the closing token, behind a part, behind
      the comma or colon that comes next. */
  datatype Tree =
    | Leaf(token: Token)
    | ArrTree(start: nat, items: ItemTrees, stop: nat)
    | ObjTree(start: nat, members: MemberTrees, stop: nat)

  datatype ItemTrees = NoItems | OneItem(item: Tree) | MoreItems(item: Tree, after: nat, next: nat, rest: ItemTrees)

  datatype MemberTrees =
    | NoMembers
    | OneMember(key: seq<Byte>, colon: nat, at: nat, value: Tree)
    | MoreMembers(key: seq<Byte>, colon: nat, at: nat, value: Tree, after: nat, next: nat, rest: MemberTrees)

  predicate IsLeaf(t: Token) {
    t.StrToken? || t.NumToken? || t.BoolToken? || t == NullToken
  }

  /** The text from p to q is a value, derived by x (section 2 of RFC 4627, at any depth). */
  ghost predicate Derives(cfg: Config, d: seq<Byte>, p: nat, x: Tree, q: nat)
    decreases x
  {
    match x
    case Leaf(t) => IsLeaf(t) && Reads(cfg, d, p, t, q)
    case ArrTree(start, items, stop) =>
      Reads(cfg, d, p, ArrBegin, start) && DerivesItems(cfg, d, start, items, stop) && Reads(cfg, d, stop, ArrEnd, q)
    case ObjTree(start, members, stop) =>
      Reads(cfg, d, p, ObjBegin, start) && DerivesMembers(cfg, d, start, members, stop) && Reads(cfg, d, stop, ObjEnd, q)
  }

  ghost predicate DerivesItems(cfg: Config, d: seq<Byte>, p: nat, xs: ItemTrees, q: nat)
    decreases xs
  {
    match xs
    case NoItems => p == q
    case OneItem(x) => Derives(cfg, d, p, x, q)
    case MoreItems(x, after, next, rest) =>
      && Derives(cfg, d, p, x, after) && Reads(cfg, d, after, Comma, next)
      && rest != NoItems && DerivesItems(cfg, d, next, rest, q)
  }

  ghost predicate DerivesMembers(cfg: Config, d: seq<Byte>, p: nat, xs: MemberTrees, q: nat)
    decreases xs
  {
    match xs
    case NoMembers => p == q
    case OneMember(key, colon, at, x) =>
      Reads(cfg, d, p, StrToken(key), colon) && Reads(cfg, d, colon, Colon, at) && Derives(cfg, d, at, x, q)
    case MoreMembers(key, colon, at, x, after, next, rest) =>
      && Reads(cfg, d, p, StrToken(key), colon) && Reads(cfg, d, colon, Colon, at) && Derives(cfg, d, at, x, after)
      && Reads(cfg, d, after, Comma, next) && rest != NoMembers && DerivesMembers(cfg, d, next, rest, q)
  }

  /** The value that is derived: elements in their order, and of members with one key the last. */
  function ValueOf(x: Tree): Json {
    match x
    case Leaf(t) => LeafValue(t)
    case ArrTree(_, items, _) => Arr(ItemsOf(items))
    case ObjTree(_, members, _) => Obj(MembersOf(NoMember, members))
  }

  function LeafValue(t: Token): Json {
    match t
    case StrToken(s) => Str(s)
    case NumToken(l) => Num(l)
    case BoolToken(b) => Bool(b)
    case _ => Null
  }

  function ItemsOf(xs: ItemTrees): Items {
    match xs
    case NoItems => NoItem
    case OneItem(x) => Item(ValueOf(x), NoItem)
    case MoreItems(x, _, _, rest) => Item(ValueOf(x), ItemsOf(rest))
  }

  function MembersOf(m: Members, xs: MemberTrees): Members
    decreases xs
  {
    match xs
    case NoMembers => m
    case OneMember(key, _, _, x) => Put(m, key, ValueOf(x))
    case MoreMembers(key, _, _, x, _, _, rest) => MembersOf(Put(m, key, ValueOf(x)), rest)
  }

  /** How deep brackets are nested. */
  function Height(x: Tree): nat {
    match x
    case Leaf(_) => 0
    case ArrTree(_, items, _) => 1 + ItemsHeight(items)
    case ObjTree(_, members, _) => 1 + MembersHeight(members)
  }

  function ItemsHeight(xs: ItemTrees): nat {
    match xs
    case NoItems => 0
    case OneItem(x) => Height(x)
    case MoreItems(x, _, _, rest) => Larger(Height(x), ItemsHeight(rest))
  }

  function MembersHeight(xs: MemberTrees): nat {
    match xs
    case NoMembers => 0
    case OneMember(_, _, _, x) => Height(x)
    case MoreMembers(_, _, _, x, _, _, rest) => Larger(Height(x), MembersHeight(rest))
  }

  // What a list of members says of a key

  datatype Found = Value(v: Json) | Absent

  function Lookup(m: Members, k: seq<Byte>): Found {
    match m
    case NoMember => Absent
    case Member(k', v, rest) => if k' == k then Value(v) else Lookup(rest, k)
  }

  function Keys(m: Members): seq<seq<Byte>> {
    match m
    case NoMember => []
    case Member(k, _, rest) => [k] + Keys(rest)
  }

  /** A member that comes in replaces the value of its key and of no other, and only a new key comes behind the others. */
  lemma {:induction false} PutLooksUp(m: Members, k: seq<Byte>, v: Json, k': seq<Byte>)
    ensures Lookup(Put(m, k, v), k') == if k' == k then Value(v) else Lookup(m, k')
    ensures Keys(Put(m, k, v)) == if Lookup(m, k) == Absent then Keys(m) + [k] else Keys(m)
  {
    match m
    case NoMember =>
    case Member(_, _, rest) => PutLooksUp(rest, k, v, k');
  }

  // Derived texts are read

  lemma ReadsInside(cfg: Config, d: seq<Byte>, p: nat, t: Token, q: nat)
    requires Reads(cfg, d, p, t, q)
    ensures p <= q <= |d| && t != Error && NextToken(cfg, d, p) == (t, q) && (t != End ==> p < q)
  {
    hide Spells, NextToken;
    var s: nat :| SpellsFrom(cfg, d, p, s, t, q);
    NoBlankSpells(cfg, d, s, t, q);
    TokenIs(cfg, d, p, t, q);
  }

  /** What is derived is read as its value, if it is not nested too deeply. */
  lemma {:induction false} DerivedIsRead(cfg: Config, d: seq<Byte>, p: nat, x: Tree, q: nat, depth: nat)
    requires p <= |d| && Derives(cfg, d, p, x, q) && depth + Height(x) <= cfg.decodeMaxDepth
    ensures ReadAt(cfg, d, p, depth) == Ok(ValueOf(x), q)
    ensures NextToken(cfg, d, p).0 !in {ArrEnd, ObjEnd, End, Error}
    decreases x
  {
    hide Reads, NextToken;
    match x
    case Leaf(t) => ReadsInside(cfg, d, p, t, q);
    case ArrTree(start, items, stop) =>
      ReadsInside(cfg, d, p, ArrBegin, start);
      ReadsInside(cfg, d, stop, ArrEnd, q);
      if items != NoItems {
        DerivedItems(cfg, d, start, items, stop, q, depth + 1, NoItem);
      }
    case ObjTree(start, members, stop) =>
      ReadsInside(cfg, d, p, ObjBegin, start);
      ReadsInside(cfg, d, stop, ObjEnd, q);
      if members != NoMembers {
        DerivedMembers(cfg, d, start, members, stop, q, depth + 1, NoMember);
      }
  }

  lemma {:induction false} DerivedItems(cfg: Config, d: seq<Byte>, p: nat, xs: ItemTrees, stop: nat, q: nat, depth: nat,
      acc: Items)
    requires p <= |d| && xs != NoItems && DerivesItems(cfg, d, p, xs, stop) && Reads(cfg, d, stop, ArrEnd, q)
    requires depth + ItemsHeight(xs) <= cfg.decodeMaxDepth
    ensures ReadItems(cfg, d, p, depth, acc) == OkItems(Join(acc, ItemsOf(xs)), q)
    ensures NextToken(cfg, d, p).0 !in {ArrEnd, ObjEnd, End, Error}
    decreases xs
  {
    hide Reads, NextToken, ReadAt, ParseValue;
    if xs.OneItem? {
      DerivedIsRead(cfg, d, p, xs.item, stop, depth);
      ReadsInside(cfg, d, stop, ArrEnd, q);
      LastItem(cfg, d, p, depth, acc, ValueOf(xs.item), stop, q);
      JoinStep(acc, ValueOf(xs.item), NoItem);
      JoinEnd(Add(acc, ValueOf(xs.item)));
    } else {
      DerivedIsRead(cfg, d, p, xs.item, xs.after, depth);
      ReadsInside(cfg, d, xs.after, Comma, xs.next);
      NextItem(cfg, d, p, depth, acc, ValueOf(xs.item), xs.after, xs.next);
      DerivedItems(cfg, d, xs.next, xs.rest, stop, q, depth, Add(acc, ValueOf(xs.item)));
      JoinStep(acc, ValueOf(xs.item), ItemsOf(xs.rest));
    }
  }

  lemma LastItem(cfg: Config, d: seq<Byte>, p: nat, depth: nat, acc: Items, v: Json, n: nat, q: nat)
    requires p <= |d| && n <= |d| && ReadAt(cfg, d, p, depth) == Ok(v, n) && NextToken(cfg, d, n) == (ArrEnd, q)
    ensures ReadItems(cfg, d, p, depth, acc) == OkItems(Add(acc, v), q)
  {
    hide NextToken, ParseValue;
  }

  lemma NextItem(cfg: Config, d: seq<Byte>, p: nat, depth: nat, acc: Items, v: Json, n: nat, q: nat)
    requires p <= |d| && n <= |d| && q <= |d| && ReadAt(cfg, d, p, depth) == Ok(v, n) && NextToken(cfg, d, n) == (Comma, q)
    ensures ReadItems(cfg, d, p, depth, acc) == ReadItems(cfg, d, q, depth, Add(acc, v))
  {
    hide NextToken, ParseValue;
  }

  lemma {:induction false} DerivedMembers(cfg: Config, d: seq<Byte>, p: nat, xs: MemberTrees, stop: nat, q: nat, depth: nat,
      acc: Members)
    requires p <= |d| && xs != NoMembers && DerivesMembers(cfg, d, p, xs, stop) && Reads(cfg, d, stop, ObjEnd, q)
    requires depth + MembersHeight(xs) <= cfg.decodeMaxDepth
    ensures ReadMembers(cfg, d, p, depth, acc) == OkMembers(MembersOf(acc, xs), q)
    ensures NextToken(cfg, d, p).0 != ObjEnd
    decreases xs
  {
    hide Reads, NextToken, ReadAt, ParseValue;
    ReadsInside(cfg, d, p, StrToken(xs.key), xs.colon);
    ReadsInside(cfg, d, xs.colon, Colon, xs.at);
    if xs.OneMember? {
      DerivedIsRead(cfg, d, xs.at, xs.value, stop, depth);
      ReadsInside(cfg, d, stop, ObjEnd, q);
      LastMember(cfg, d, p, depth, acc, xs.key, xs.colon, xs.at, ValueOf(xs.value), stop, q);
    } else {
      DerivedIsRead(cfg, d, xs.at, xs.value, xs.after, depth);
      ReadsInside(cfg, d, xs.after, Comma, xs.next);
      NextMember(cfg, d, p, depth, acc, xs.key, xs.colon, xs.at, ValueOf(xs.value), xs.after, xs.next);
      DerivedMembers(cfg, d, xs.next, xs.rest, stop, q, depth, Put(acc, xs.key, ValueOf(xs.value)));
    }
  }

  ghost predicate MemberAt(cfg: Config, d: seq<Byte>, p: nat, depth: nat, k: seq<Byte>, colon: nat, at: nat, v: Json, n: nat) {
    && p <= |d| && colon <= |d| && at <= |d| && n <= |d|
    && NextToken(cfg, d, p) == (StrToken(k), colon) && NextToken(cfg, d, colon) == (Colon, at)
    && ReadAt(cfg, d, at, depth) == Ok(v, n)
  }

  lemma LastMember(cfg: Config, d: seq<Byte>, p: nat, depth: nat, acc: Members, k: seq<Byte>, colon: nat, at: nat, v: Json,
      n: nat, q: nat)
    requires MemberAt(cfg, d, p, depth, k, colon, at, v, n) && NextToken(cfg, d, n) == (ObjEnd, q)
    ensures ReadMembers(cfg, d, p, depth, acc) == OkMembers(Put(acc, k, v), q)
  {
    hide NextToken, ParseValue;
  }

  lemma NextMember(cfg: Config, d: seq<Byte>, p: nat, depth: nat, acc: Members, k: seq<Byte>, colon: nat, at: nat, v: Json,
      n: nat, q: nat)
    requires MemberAt(cfg, d, p, depth, k, colon, at, v, n) && q <= |d| && NextToken(cfg, d, n) == (Comma, q)
    ensures ReadMembers(cfg, d, p, depth, acc) == ReadMembers(cfg, d, q, depth, Put(acc, k, v))
  {
    hide NextToken, ParseValue;
  }

  // What is read is derived

  lemma {:induction false} ReadIsDerived(cfg: Config, d: seq<Byte>, p: nat, depth: nat) returns (x: Tree)
    requires p <= |d| && ReadAt(cfg, d, p, depth).Ok?
    ensures var r := ReadAt(cfg, d, p, depth);
      Derives(cfg, d, p, x, r.next) && ValueOf(x) == r.v && depth + Height(x) <= Larger(depth, cfg.decodeMaxDepth)
    decreases |d| - p, 1
  {
    hide Reads, NextToken;
    var (t, q) := NextToken(cfg, d, p);
    TokenIs(cfg, d, p, t, q);
    if t == ArrBegin {
      var (t', n) := NextToken(cfg, d, q);
      ReadsInside(cfg, d, p, t, q);
      if t' == ArrEnd {
        TokenIs(cfg, d, q, t', n);
        return ArrTree(q, NoItems, q);
      }
      var items, stop := ReadItemsDerived(cfg, d, q, depth + 1, NoItem);
      return ArrTree(q, items, stop);
    }
    if t == ObjBegin {
      var (t', n) := NextToken(cfg, d, q);
      ReadsInside(cfg, d, p, t, q);
      if t' == ObjEnd {
        TokenIs(cfg, d, q, t', n);
        return ObjTree(q, NoMembers, q);
      }
      var members, stop := ReadMembersDerived(cfg, d, q, depth + 1, NoMember);
      return ObjTree(q, members, stop);
    }
    return Leaf(t);
  }

  lemma {:induction false} ReadItemsDerived(cfg: Config, d: seq<Byte>, p: nat, depth: nat, acc: Items)
      returns (xs: ItemTrees, stop: nat)
    requires p <= |d| && depth <= cfg.decodeMaxDepth && ReadItems(cfg, d, p, depth, acc).OkItems?
    ensures var r := ReadItems(cfg, d, p, depth, acc);
      && xs != NoItems && DerivesItems(cfg, d, p, xs, stop) && Reads(cfg, d, stop, ArrEnd, r.next)
      && r.items == Join(acc, ItemsOf(xs)) && depth + ItemsHeight(xs) <= cfg.decodeMaxDepth
    decreases |d| - p, 2
  {
    hide Reads, NextToken, ParseValue, Derives, Height, ValueOf;
    var v := ReadAt(cfg, d, p, depth);
    var x := ReadIsDerived(cfg, d, p, depth);
    var (e, q) := NextToken(cfg, d, v.next);
    TokenIs(cfg, d, v.next, e, q);
    if e == ArrEnd {
      JoinStep(acc, v.v, NoItem);
      JoinEnd(Add(acc, v.v));
      return OneItem(x), v.next;
    }
    ValueMoves(cfg, d, p, depth);
    ReadsInside(cfg, d, v.next, e, q);
    var rest;
    rest, stop := ReadItemsDerived(cfg, d, q, depth, Add(acc, v.v));
    JoinStep(acc, v.v, ItemsOf(rest));
    xs := MoreItems(x, v.next, q, rest);
  }

  lemma ValueMoves(cfg: Config, d: seq<Byte>, p: nat, depth: nat)
    requires p <= |d| && ReadAt(cfg, d, p, depth).Ok?
    ensures p <= ReadAt(cfg, d, p, depth).next <= |d|
  {
    hide NextToken, ParseValue;
  }

  lemma {:induction false} ReadMembersDerived(cfg: Config, d: seq<Byte>, p: nat, depth: nat, acc: Members)
      returns (xs: MemberTrees, stop: nat)
    requires p <= |d| && depth <= cfg.decodeMaxDepth && ReadMembers(cfg, d, p, depth, acc).OkMembers?
    ensures var r := ReadMembers(cfg, d, p, depth, acc);
      && xs != NoMembers && DerivesMembers(cfg, d, p, xs, stop) && Reads(cfg, d, stop, ObjEnd, r.next)
      && r.members == MembersOf(acc, xs) && depth + MembersHeight(xs) <= cfg.decodeMaxDepth
    decreases |d| - p, 2
  {
    hide Reads, NextToken, ParseValue, Derives, Height, ValueOf;
    var (t, colon) := NextToken(cfg, d, p);
    TokenIs(cfg, d, p, t, colon);
    ReadsInside(cfg, d, p, t, colon);
    var (c, at) := NextToken(cfg, d, colon);
    TokenIs(cfg, d, colon, c, at);
    ReadsInside(cfg, d, colon, c, at);
    var v := ReadAt(cfg, d, at, depth);
    var x := ReadIsDerived(cfg, d, at, depth);
    ValueMoves(cfg, d, at, depth);
    var (e, q) := NextToken(cfg, d, v.next);
    TokenIs(cfg, d, v.next, e, q);
    if e == ObjEnd {
      return OneMember(t.s, colon, at, x), v.next;
    }
    ReadsInside(cfg, d, v.next, e, q);
    var rest;
    rest, stop := ReadMembersDerived(cfg, d, q, depth, Put(acc, t.s, v.v));
    xs := MoreMembers(t.s, colon, at, x, v.next, q, rest);
  }

  // Whole texts

  ghost predicate IsText(cfg: Config, d: seq<Byte>, x: Tree, v: Json, n: nat) {
    && Derives(cfg, d, 0, x, n) && ValueOf(x) == v && Height(x) <= cfg.decodeMaxDepth
    && exists q: nat :: Reads(cfg, d, n, End, q)
  }

  /** A text is parsed if and only if it has no zero among its first two bytes, is derived as a value that is not nested too
      deeply, and has nothing but white space behind that, up to its end or a zero. */
  lemma ParseTextIs(cfg: Config, d: seq<Byte>, v: Json, n: nat)
    ensures ParseText(cfg, d) == Ok(v, n) <==>
      !(|d| >= 2 && 0 in d[..2]) && exists x: Tree :: IsText(cfg, d, x, v, n)
  {
    hide NextToken, Reads, Derives, ParseValue;
    assert |d| >= 2 ==> (0 in d[..2] <==> d[0] == 0 || d[1] == 0);
    if ParseText(cfg, d) == Ok(v, n) {
      var x := ReadIsDerived(cfg, d, 0, 0);
      ValueMoves(cfg, d, 0, 0);
      TokenIs(cfg, d, n, End, NextToken(cfg, d, n).1);
      assert IsText(cfg, d, x, v, n);
    }
    if x: Tree :| IsText(cfg, d, x, v, n) {
      DerivedIsRead(cfg, d, 0, x, n, 0);
      ValueMoves(cfg, d, 0, 0);
      var q: nat :| Reads(cfg, d, n, End, q);
      ReadsInside(cfg, d, n, End, q);
    }
  }

  // Printed texts have no white space of their own

  predicate Tight(s: seq<Byte>) {
    forall i :: 0 <= i < |s| ==> s[i] !in BLANKS
  }

  /** There is no white space in strings, keys and numbers. */
  predicate TightValue(v: Json) {
    match v
    case Num(l) => Tight(l)
    case Str(s) => Tight(s)
    case Arr(items) => TightItems(items)
    case Obj(members) => TightMembers(members)
    case _ => true
  }

  predicate TightItems(items: Items) {
    match items
    case NoItem => true
    case Item(v, rest) => TightValue(v) && TightItems(rest)
  }

  predicate TightMembers(m: Members) {
    match m
    case NoMember => true
    case Member(k, v, rest) => Tight(k) && TightValue(v) && TightMembers(rest)
  }

  lemma {:induction false} EscapedTight(s: seq<Byte>)
    requires Tight(s)
    ensures Tight(JsonStrings.EscapeAll(s))
  {
    if s != [] {
      EscapedTight(s[1..]);
    }
  }

  lemma TightConcat(a: seq<Byte>, b: seq<Byte>)
    ensures Tight(a) && Tight(b) <==> Tight(a + b)
  {
    assert forall i :: 0 <= i < |a| ==> (a + b)[i] == a[i];
    assert forall i :: 0 <= i < |b| ==> (a + b)[|a| + i] == b[i];
  }

  lemma QuotedTight(s: seq<Byte>)
    requires Tight(s)
    ensures Tight(JsonStrings.Quoted(s))
  {
    EscapedTight(s);
    hide JsonStrings.EscapeAll;
  }

  /** All white space in a printed text is that of its strings and numbers. */
  lemma {:induction false} PrintTight(v: Json)
    requires TightValue(v)
    ensures Tight(Print(v))
    decreases v
  {
    match v
    case Str(s) => QuotedTight(s);
    case Arr(items) => ItemsTight(items);
    case Obj(members) => MembersTight(members);
    case _ =>
  }

  lemma {:induction false} ItemsTight(items: Items)
    requires TightItems(items)
    ensures Tight(PrintItems(items))
    decreases items
  {
    hide Print;
    match items
    case NoItem =>
    case Item(v, rest) =>
      PrintTight(v);
      ItemsTight(rest);
      PrintItem(v, rest);
  }

  lemma {:induction false} MembersTight(m: Members)
    requires TightMembers(m)
    ensures Tight(PrintMembers(m))
    decreases m
  {
    hide Print, JsonStrings.Quoted;
    match m
    case NoMember =>
    case Member(k, v, rest) =>
      QuotedTight(k);
      PrintTight(v);
      MembersTight(rest);
      PrintMember(k, v, rest);
  }
}
