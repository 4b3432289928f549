/** Paths as lists of components. */
module FsComponents {
  import opened Bytes
  import opened FsTrees
  import opened FsPaths

  /** A component with the separators in front of it. */
  datatype Part = Part(seps: seq<Byte>, name: seq<Byte>)

  predicate GoodPart(part: Part) {
    AllSeps(part.seps) && part.name != [] && NoSeps(part.name) && 0 !in part.name
  }

  /** Components, apart from each other. */
  predicate GoodParts(parts: seq<Part>) {
    && (forall k :: 0 <= k < |parts| ==> GoodPart(parts[k]))
    && (forall k :: 0 < k < |parts| ==> parts[k].seps != [])
  }

  /** The text of a path, with separators behind it. */
  function PathOf(parts: seq<Part>, tail: seq<Byte>): seq<Byte> {
    if parts == [] then tail else parts[0].seps + parts[0].name + PathOf(parts[1..], tail)
  }

  lemma {:induction false} PathOfOk(parts: seq<Part>, tail: seq<Byte>)
    requires GoodParts(parts) && AllSeps(tail)
    ensures 0 !in PathOf(parts, tail)
    ensures parts != [] ==> |PathOf(parts, tail)| > |PathOf(parts[1..], tail)|
    ensures PathOf(parts, tail) == [] <==> parts == [] && tail == []
    ensures (parts == [] || parts[0].seps != []) && PathOf(parts, tail) != [] ==> PathOf(parts, tail)[0] == SEP
  {
    if parts != [] {
      assert GoodPart(parts[0]);
      PathOfOk(parts[1..], tail);
    }
  }

  /** The first component of the text is that of the list. */
  lemma FirstPart(parts: seq<Part>, tail: seq<Byte>)
    requires GoodParts(parts) && AllSeps(tail)
    ensures 0 !in PathOf(parts, tail)
    ensures First(PathOf(parts, tail)) == if parts == [] then ([], []) else (Cut(parts[0].name), PathOf(parts[1..], tail))
    ensures parts != [] ==> Cut(parts[0].name) != [] && GoodParts(parts[1..])
    ensures parts != [] ==> (PathOf(parts[1..], tail) == [] <==> |parts| == 1 && tail == [])
  {
    hide First;
    PathOfOk(parts, tail);
    if parts == [] {
      FirstIs(tail, tail, [], []);
    } else {
      assert GoodPart(parts[0]);
      PathOfOk(parts[1..], tail);
      FirstIs(PathOf(parts, tail), parts[0].seps, parts[0].name, PathOf(parts[1..], tail));
    }
  }

  /** Every path is such a text. */
  lemma {:induction false} PartsOf(p: Path) returns (parts: seq<Part>, tail: seq<Byte>)
    ensures GoodParts(parts) && AllSeps(tail) && p == PathOf(parts, tail)
    ensures parts != [] && p != [] && p[0] == SEP ==> parts[0].seps != []
    decreases |p|
  {
    hide First;
    var seps, name := SplitOf(p);
    var rest := First(p).1;
    if name == [] {
      return [], p;
    }
    var others;
    others, tail := PartsOf(rest);
    PathOfOk(others, tail);
    parts := [Part(seps, name)] + others;
    assert parts[1..] == others;
    NameNotZero(p, seps, name, rest);
    assert GoodParts(parts);
  }

  lemma NameNotZero(p: Path, seps: seq<Byte>, name: seq<Byte>, rest: seq<Byte>)
    requires p == seps + name + rest
    ensures 0 !in name
  {
    assert forall k :: 0 <= k < |name| ==> name[k] == p[|seps| + k];
  }

  // Where they lead

  /** The nodes are a chain of children with these names; those between are directories. */
  ghost predicate Chain(T: Tree, ns: seq<nat>, parts: seq<Part>) {
    && |ns| == |parts| + 1
    && (forall k :: 0 <= k < |parts| ==> Child(T, ns[k], Cut(parts[k].name), ns[k + 1]))
    && (forall k :: 0 < k < |parts| ==> IsDir(T, ns[k]))
  }

  /** A chain from i to c. */
  ghost predicate Joined(T: Tree, i: nat, parts: seq<Part>, c: nat) {
    exists ns: seq<nat> :: Chain(T, ns, parts) && ns[0] == i && ns[|parts|] == c
  }

  lemma JoinedNone(T: Tree, i: nat, c: nat)
    ensures Joined(T, i, [], c) <==> c == i
  {
    if c == i {
      assert Chain(T, [i], []);
    }
  }

  lemma JoinedFirst(T: Tree, i: nat, parts: seq<Part>, c: nat)
    requires parts != []
    ensures Joined(T, i, parts, c) <==>
      exists m: nat :: Child(T, i, Cut(parts[0].name), m) && (|parts| > 1 ==> IsDir(T, m)) && Joined(T, m, parts[1..], c)
  {
    hide Child, IsDir, Cut;
    if Joined(T, i, parts, c) {
      var ns: seq<nat> :| Chain(T, ns, parts) && ns[0] == i && ns[|parts|] == c;
      assert Chain(T, ns[1..], parts[1..]);
      assert Joined(T, ns[1], parts[1..], c);
    }
    if m: nat :| Child(T, i, Cut(parts[0].name), m) && (|parts| > 1 ==> IsDir(T, m)) && Joined(T, m, parts[1..], c) {
      var ns: seq<nat> :| Chain(T, ns, parts[1..]) && ns[0] == m && ns[|parts| - 1] == c;
      assert Chain(T, [i] + ns, parts);
    }
  }

  /** A path leads along a chain of children with the names of its components, and to a directory if a separator is at its
      end. */
  lemma {:induction false} LeadsAlong(T: Tree, i: nat, parts: seq<Part>, tail: seq<Byte>, c: nat)
    requires GoodParts(parts) && AllSeps(tail)
    ensures 0 !in PathOf(parts, tail)
    ensures Leads(T, i, PathOf(parts, tail), c) <==>
      Joined(T, i, parts, c) && (parts != [] && tail != [] ==> IsDir(T, c))
    decreases |parts|
  {
    hide First, Child, IsDir, Cut, Joined, GoodParts;
    FirstPart(parts, tail);
    var p := PathOf(parts, tail);
    if parts == [] {
      JoinedNone(T, i, c);
    } else {
      JoinedFirst(T, i, parts, c);
      var rest := PathOf(parts[1..], tail);
      forall m: nat
        ensures Leads(T, m, rest, c) <==> Joined(T, m, parts[1..], c) && (|parts| > 1 && tail != [] ==> IsDir(T, c))
        ensures |parts| == 1 ==> (Joined(T, m, parts[1..], c) <==> c == m)
      {
        LeadsAlong(T, m, parts[1..], tail, c);
        JoinedNone(T, m, c);
      }
    }
  }

  /** A path leads into a directory if no separator is at its end, along a chain of children for all but the last of its
      components, and that is the name to be looked for. */
  lemma {:induction false} LeadsIntoAlong(T: Tree, i: nat, parts: seq<Part>, tail: seq<Byte>, dir: nat, last: seq<Byte>)
    requires GoodParts(parts) && AllSeps(tail)
    ensures 0 !in PathOf(parts, tail)
    ensures LeadsInto(T, i, PathOf(parts, tail), dir, last) <==>
      parts != [] && tail == [] && last == Cut(parts[|parts| - 1].name) &&
      Joined(T, i, parts[..|parts| - 1], dir) && (|parts| > 1 ==> IsDir(T, dir))
    decreases |parts|
  {
    hide First, Child, IsDir, Cut, Joined, GoodParts;
    FirstPart(parts, tail);
    if parts != [] {
      var front, rest := parts[..|parts| - 1], PathOf(parts[1..], tail);
      if |parts| == 1 {
        assert front == [];
        JoinedNone(T, i, dir);
      } else {
        JoinedFirst(T, i, front, dir);
        assert front[1..] == parts[1..][..|parts| - 2];
      }
      forall m: nat
        ensures LeadsInto(T, m, rest, dir, last) <==>
          |parts| > 1 && tail == [] && last == Cut(parts[|parts| - 1].name) &&
          Joined(T, m, parts[1..][..|parts| - 2], dir) && (|parts| > 2 ==> IsDir(T, dir))
        ensures |parts| == 2 ==> (Joined(T, m, parts[1..][..0], dir) <==> dir == m)
      {
        LeadsIntoAlong(T, m, parts[1..], tail, dir, last);
        JoinedNone(T, m, dir);
      }
    }
  }
}
