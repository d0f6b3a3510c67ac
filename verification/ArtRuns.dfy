/** Whole runs of adaptive radix tree operations, and what they leave behind. */
module ArtRuns {
  import opened ArtNode
  import opened ArtShape
  import opened ArtTree
  import opened ArtProofs
  import opened ArtOrder
  import opened Art

  datatype Op = Store(key: Key, value: Value) | Remove(key: Key)

  ghost function AfterOp(es: set<Entry>, op: Op): set<Entry> {
    match op
    case Store(key, value) => Put(es, key, value)
    case Remove(key) => Without(es, key)
  }

  /** The map that a run of operations denotes. */
  ghost function After(es: set<Entry>, ops: seq<Op>): set<Entry> {
    if ops == [] then es else AfterOp(After(es, ops[..|ops| - 1]), ops[|ops| - 1])
  }

  /** Keys inserted in a run are prefix-free against the keys stored at that moment. */
  ghost predicate Admissible(es: set<Entry>, ops: seq<Op>) {
    forall i :: 0 <= i < |ops| && ops[i].Store? ==> PrefixFree(After(es, ops[..i]), ops[i].key)
  }

  /** Over every run, the tree in memory equals the map, and its size the number of keys. */
  method Replay(m: RadixMap, ops: seq<Op>)
    requires m.Valid() && Admissible(m.Contents(), ops)
    modifies m
    ensures m.Valid() && m.Contents() == After(old(m.Contents()), ops)
    ensures m.size == |m.Contents()|
    ensures TidyMem(old(m.mem)) && AllLow(ops) ==> TidyMem(m.mem)
  {
    ghost var es := m.Contents();
    var i := 0;
    while i < |ops|
      invariant 0 <= i <= |ops|
      invariant m.Valid() && m.Contents() == After(es, ops[..i])
      invariant TidyMem(old(m.mem)) && AllLow(ops) ==> TidyMem(m.mem)
    {
      hide *;
      AfterLast(es, ops, i);
      ghost var mem := m.mem;
      match ops[i] {
        case Store(key, value) =>
          MayStore(es, ops, i);
          var _ := m.Insert(key, value);
          if AllLow(ops) { StillTidy(ops, i, mem, m.mem); }
        case Remove(key) =>
          var _ := m.Delete(key);
      }
      i := i + 1;
    }
    assert ops[..|ops|] == ops;
    SizeOf(m);
  }

  /** All keys that are stored have bytes below 128 only. */
  ghost predicate AllLow(ops: seq<Op>) {
    forall i :: 0 <= i < |ops| && ops[i].Store? ==> Low(ops[i].key)
  }

  lemma StillTidy(ops: seq<Op>, i: nat, mem: map<Ptr, Cell>, mem': map<Ptr, Cell>)
    requires AllLow(ops) && i < |ops| && ops[i].Store? && KeepsTidy(mem, ops[i].key, mem')
    ensures TidyMem(mem) ==> TidyMem(mem')
  {
    hide Low, TidyMem;
  }

  lemma MayStore(es: set<Entry>, ops: seq<Op>, i: nat)
    requires Admissible(es, ops) && i < |ops| && ops[i].Store?
    ensures PrefixFree(After(es, ops[..i]), ops[i].key)
  {
    hide PrefixFree, After;
  }

  lemma AfterLast(es: set<Entry>, ops: seq<Op>, i: nat)
    requires i < |ops|
    ensures ops[i].Store? ==> After(es, ops[..i + 1]) == Put(After(es, ops[..i]), ops[i].key, ops[i].value)
    ensures ops[i].Remove? ==> After(es, ops[..i + 1]) == Without(After(es, ops[..i]), ops[i].key)
  {
    hide Put, Without;
    assert ops[..i + 1][..i] == ops[..i];
  }

  lemma SizeOf(m: RadixMap)
    requires m.Valid()
    ensures m.size == |m.Contents()|
  {
    hide Stands, Cells;
  }

  /** The map holds one value per key, so its size is its number of keys. */
  lemma ContentsIsAMap(m: RadixMap, key: Key, v: Value, w: Value)
    requires m.Valid() && (key, v) in m.Contents() && (key, w) in m.Contents()
    ensures v == w
  {
    hide Cells, Entries, Shaped, Holds, Apart;
    Functional(m.tree.value, [], key, v, w);
  }

  // ----- history independence -----

  /** Two trees in memory with the same branching, at each node the same path length and the same stored path
      bytes, and the same keys in the leaves; layouts and values may differ. */
  ghost predicate SameCells(mem: map<Ptr, Cell>, s: Tree, mem': map<Ptr, Cell>, t: Tree)
    requires Holds(mem, s) && Holds(mem', t)
  {
    match (s, t)
    case (Leaf(_, _, _), Leaf(_, _, _)) => mem[s.at].key == mem'[t.at].key
    case (Inner(_, _, _), Inner(_, _, _)) =>
      var m, n := mem[s.at].node, mem'[t.at].node;
      && SameHeader(m, n) && Kids(m).Keys == Kids(n).Keys
      && s.kids.Keys == t.kids.Keys == Kids(m).Keys
      && forall b: Byte :: b in s.kids ==> SameCells(mem, s.kids[b], mem', t.kids[b])
    case _ => false
  }

  lemma {:induction false} SameShapeSameCells(mem: map<Ptr, Cell>, s: Tree, mem': map<Ptr, Cell>, t: Tree)
    requires Holds(mem, s) && Holds(mem', t) && SameShape(s, t)
    ensures SameCells(mem, s, mem', t)
    decreases s
  {
    if s.Inner? {
      SameNode(mem[s.at].node, s, mem'[t.at].node, t);
      hide NodeHolds, SameHeader, Kids;
      forall b: Byte | b in s.kids
        ensures SameCells(mem, s.kids[b], mem', t.kids[b])
      {
        SameShapeSameCells(mem, s.kids[b], mem', t.kids[b]);
      }
    }
  }

  lemma SameNode(m: Node, s: Tree, n: Node, t: Tree)
    requires s.Inner? && t.Inner? && NodeHolds(m, s) && NodeHolds(n, t)
    requires s.prefix == t.prefix && s.kids.Keys == t.kids.Keys
    ensures Sized(m) && Sized(n) && SameHeader(m, n) && Kids(m).Keys == Kids(n).Keys == s.kids.Keys
  {
    hide Kids, LayoutOk;
    LayoutSized(m);
    LayoutSized(n);
  }

  lemma SameKeySets(es: set<Entry>, fs: set<Entry>)
    requires forall k: Key :: HasKey(es, k) <==> HasKey(fs, k)
    ensures KeysOf(es) == KeysOf(fs) && KeysOf({}) == {}
  {
    forall k: Key ensures k in KeysOf(es) <==> k in KeysOf(fs) {
      KeyIn(es, k);
      KeyIn(fs, k);
    }
  }

  lemma KeyIn(es: set<Entry>, k: Key)
    ensures k in KeysOf(es) <==> HasKey(es, k)
  {
    if HasKey(es, k) {
      var v: Value :| (k, v) in es;
    }
    if k in KeysOf(es) {
      var e := EntryOf(es, k);
      assert (k, e.1) in es;
    }
  }

  /** However two trees came about: with the same keys they have the same skeleton and the same header at
      every node. */
  lemma HistoryIndependent(m: RadixMap, n: RadixMap)
    requires m.Valid() && n.Valid() && forall k: Key :: HasKey(m.Contents(), k) <==> HasKey(n.Contents(), k)
    ensures m.tree.None? <==> n.tree.None?
    ensures m.tree.Some? && n.tree.Some? ==>
      && SameShape(m.tree.value, n.tree.value)
      && Holds(m.mem, m.tree.value) && Holds(n.mem, n.tree.value)
      && SameCells(m.mem, m.tree.value, n.mem, n.tree.value)
  {
    hide Cells, Entries, Shaped, Holds, Apart, SameShape, SameCells;
    SameKeySets(m.Contents(), n.Contents());
    if m.tree.Some? { HasAKey(m.tree.value, []); }
    if n.tree.Some? { HasAKey(n.tree.value, []); }
    if m.tree.Some? && n.tree.Some? {
      KeysDetermineShape(m.tree.value, n.tree.value, []);
      SameShapeSameCells(m.mem, m.tree.value, n.mem, n.tree.value);
    }
  }

  /** Two runs from empty trees that end with the same keys. */
  method TwoRuns(ops: seq<Op>, ops': seq<Op>) returns (m: RadixMap, n: RadixMap)
    requires Admissible({}, ops) && Admissible({}, ops')
    requires forall k: Key :: HasKey(After({}, ops), k) <==> HasKey(After({}, ops'), k)
    ensures m.Valid() && n.Valid() && m.Contents() == After({}, ops) && n.Contents() == After({}, ops')
    ensures m.tree.None? <==> n.tree.None?
    ensures m.tree.Some? && n.tree.Some? ==>
      && SameShape(m.tree.value, n.tree.value)
      && Holds(m.mem, m.tree.value) && Holds(n.mem, n.tree.value)
      && SameCells(m.mem, m.tree.value, n.mem, n.tree.value)
  {
    hide *;
    m := new RadixMap();
    Replay(m, ops);
    n := new RadixMap();
    Replay(n, ops');
    HistoryIndependent(m, n);
  }

  // ----- the least key -----

  /** From an empty tree, after any run that stores keys of bytes below 128 only: `art_minimum` gives the least. */
  method LeastAfterRun(ops: seq<Op>) returns (r: Option<Entry>)
    requires Admissible({}, ops) && AllLow(ops)
    ensures r.None? <==> After({}, ops) == {}
    ensures r.Some? ==> r.value in After({}, ops) && forall x :: x in After({}, ops) ==> Before(r.value.0, x.0)
  {
    var m := new RadixMap();
    Replay(m, ops);
    hide RadixMap.Valid, After, TidyMem, FirstIsLeast;
    r := m.First();
  }

  /** The root is a node whose list has these bytes, each a key by itself. */
  ghost predicate ByteRoot(m: RadixMap, s: seq<Byte>, kind: Kind)
    reads m
  {
    && m.Valid() && m.tree.Some? && m.root in m.mem && m.mem[m.root].NodeCell?
    && var n := m.mem[m.root].node; n.kind == kind && IsList(n) && Bytes(n) == s && m.Contents() == ByteKeys(s)
  }

  ghost function ByteKeys(s: seq<Byte>): set<Entry> {
    set b: Byte | b in s :: ([b], 0)
  }

  lemma ByteKeysAre(s: seq<Byte>)
    ensures forall b: Byte :: HasKey(ByteKeys(s), [b]) <==> b in s
    ensures forall e :: e in ByteKeys(s) ==> |e.0| == 1 && e.0[0] in s && e == ([e.0[0]], 0)
  {
    forall b: Byte ensures HasKey(ByteKeys(s), [b]) <==> b in s {
      if b in s { assert ([b], 0) in ByteKeys(s); }
      if HasKey(ByteKeys(s), [b]) {
        var v: Value :| ([b], v) in ByteKeys(s);
        var c: Byte :| c in s && ([c], 0) == ([b], v);
        assert [c][0] == [b][0];
      }
    }
  }

  lemma MayStoreByte(s: seq<Byte>, c: Byte)
    ensures PrefixFree(ByteKeys(s), [c])
  {
    ByteKeysAre(s);
    hide ByteKeys;
    forall e | e in ByteKeys(s) && (e.0 <= [c] || [c] <= e.0) ensures e.0 == [c] {
    }
  }

  lemma OneByteMore(s: seq<Byte>, t: seq<Byte>, c: Byte)
    requires c !in s && forall b: Byte :: b in t <==> b in s || b == c
    ensures ByteKeys(t) == Put(ByteKeys(s), [c], 0)
  {
    ByteKeysAre(s);
    ByteKeysAre(t);
    forall e | e in ByteKeys(s) ensures e.0 != [c] { assert [c][0] == c; }
    forall e ensures e in ByteKeys(t) <==> e in Put(ByteKeys(s), [c], 0) {
      if e in ByteKeys(t) && e.0[0] in s { assert ([e.0[0]], 0) in ByteKeys(s); }
      if e in ByteKeys(s) { assert ([e.0[0]], 0) in ByteKeys(t); }
      if e == ([c], 0) { assert c in t; }
    }
  }

  lemma OneByteLess(s: seq<Byte>, t: seq<Byte>, c: Byte)
    requires forall b: Byte :: b in t <==> b in s && b != c
    ensures ByteKeys(t) == Without(ByteKeys(s), [c])
  {
    ByteKeysAre(s);
    ByteKeysAre(t);
    forall e ensures e in ByteKeys(t) <==> e in Without(ByteKeys(s), [c]) {
      if e in ByteKeys(t) { assert ([e.0[0]], 0) in ByteKeys(s); }
      if e in Without(ByteKeys(s), [c]) { assert ([e.0[0]], 0) in ByteKeys(t); }
    }
  }

  lemma {:induction false} PutByteHas(s: seq<Byte>, c: Byte, signed: bool)
    ensures |PutByte(s, c, signed)| == |s| + 1
    ensures forall b: Byte :: b in PutByte(s, c, signed) <==> b in s || b == c
    decreases |s|
  {
    if s != [] {
      PutByteHas(s[1..], c, signed);
      assert s == [s[0]] + s[1..];
    }
  }

  lemma {:induction false} DropByteHas(s: seq<Byte>, c: Byte)
    requires c in s && forall i, j :: 0 <= i < j < |s| ==> s[i] != s[j]
    ensures |DropByte(s, c)| == |s| - 1
    ensures forall b: Byte :: b in DropByte(s, c) <==> b in s && b != c
    decreases |s|
  {
    assert s == [s[0]] + s[1..];
    if s[0] != c { DropByteHas(s[1..], c); }
  }

  /** A tree of keys of one byte: one node, without a path, over leaves. */
  lemma ByteTree(t: Tree, s: seq<Byte>)
    requires t.Inner? && Shaped(t, []) && Entries(t) == ByteKeys(s)
    ensures t.prefix == [] && (forall b: Byte :: b in t.kids <==> b in s)
    ensures forall b: Byte :: b in t.kids ==> t.kids[b].Leaf? && t.kids[b].key == [b]
  {
    ByteKeysAre(s);
    hide Shaped, Entries, ByteKeys;
    var e := NotEmpty(t, []);
    KeysFollowPath(t, [], e);
    assert [] + t.prefix == t.prefix;
    forall b: Byte ensures b in t.kids <==> b in s
      ensures b in t.kids ==> t.kids[b].Leaf? && t.kids[b].key == [b]
    {
      if b in t.kids { ByteKid(t, s, b); }
      if b in s {
        var v: Value :| ([b], v) in Entries(t);
        KeysFollowPath(t, [], ([b], v));
      }
    }
  }

  lemma ByteKid(t: Tree, s: seq<Byte>, b: Byte)
    requires t.Inner? && Shaped(t, []) && t.prefix == [] && b in t.kids
    requires forall e :: e in Entries(t) ==> |e.0| == 1 && e.0[0] in s
    ensures b in s && t.kids[b].Leaf? && t.kids[b].key == [b]
  {
    KidShaped(t, [], b);
    assert [] + t.prefix + [b] == [b];
    var x := NotEmpty(t.kids[b], [b]);
    EntryBelow(t, x);
    KeysFollowPath(t.kids[b], [b], x);
    assert x.0 == [b];
    if t.kids[b].Leaf? { assert Entries(t.kids[b]) == {(t.kids[b].key, t.kids[b].value)}; }
  }

  lemma ByteNode(m: RadixMap, s: seq<Byte>, kind: Kind)
    requires ByteRoot(m, s, kind)
    ensures m.tree.Some? && m.tree.value.Inner? && m.tree.value.prefix == []
    ensures (forall b: Byte :: b in m.tree.value.kids <==> b in s) && |m.tree.value.kids| == |s|
    ensures forall b: Byte :: b in m.tree.value.kids ==> m.tree.value.kids[b].Leaf? && m.tree.value.kids[b].key == [b]
    ensures m.root in m.mem && m.mem[m.root].NodeCell? && m.root == m.tree.value.at
    ensures var n := m.mem[m.root].node;
      n.kind == kind && IsList(n) && Sized(n) && |Kids(n)| == |s| && Bytes(n) == s
          && Kids(n).Keys == m.tree.value.kids.Keys
    ensures forall i, j :: 0 <= i < j < |s| ==> s[i] != s[j]
  {
    hide Kids, LayoutOk, Cells, Shaped, Entries, ByteKeys, Bytes;
    var t := m.tree.value;
    InnerFacts(m.mem, t, []);
    ByteTree(t, s);
    ListBytes(m.mem[m.root].node);
    assert |Kids(m.mem[m.root].node)| == |Kids(m.mem[m.root].node).Keys|;
    assert |t.kids| == |t.kids.Keys|;
  }

  lemma ListBytes(n: Node)
    requires LayoutOk(n) && IsList(n)
    ensures Sized(n) && |Bytes(n)| == |Kids(n)| && forall i, j :: 0 <= i < j < |Bytes(n)| ==> Bytes(n)[i] != Bytes(n)[j]
  {
    hide Kids;
    ListFacts(n);
  }

  method PutOne(m: RadixMap, c: Byte, ghost s: seq<Byte>, ghost kind: Kind)
    requires ByteRoot(m, s, kind) && c !in s && |s| < 16
    modifies m
    ensures ByteRoot(m, PutByte(s, c, kind.Kind16? || |s| == 4), GrowsTo(kind, |s|))
  {
    hide *;
    ByteNode(m, s, kind);
    MayStoreByte(s, c);
    ghost var mem0, root0, t0 := m.mem, m.root, m.tree.value;
    ByteGain(t0, c);
    RootContents(m, s, kind);
    var _ := m.Insert([c], 0);
    ghost var s' := PutByte(s, c, kind.Kind16? || |s| == 4);
    PutByteHas(s, c, kind.Kind16? || |s| == 4);
    OneByteMore(s, s', c);
    SomeKeys(s');
    GainedRoot(mem0, root0, m, c, s, kind);
  }

  lemma RootContents(m: RadixMap, s: seq<Byte>, kind: Kind)
    requires ByteRoot(m, s, kind)
    ensures m.Valid() && m.Contents() == ByteKeys(s)
  {
  }

  lemma ByteGain(t: Tree, c: Byte)
    requires t.Inner? && t.prefix == []
    ensures c !in t.kids ==> IsGain(t, [], [c])
    ensures c in t.kids && |t.kids| > 2 && t.kids[c].Leaf? && t.kids[c].key == [c] ==> IsLoss(t, [], [c])
  {
    assert [] + t.prefix == [];
  }

  lemma GainedRoot(mem0: map<Ptr, Cell>, root0: Ptr, m: RadixMap, c: Byte, s: seq<Byte>, kind: Kind)
    requires root0 in mem0 && mem0[root0].NodeCell? && m.Valid() && m.Contents() != {}
    requires var n := mem0[root0].node; n.kind == kind && IsList(n) && Sized(n) && |Kids(n)| == |s| && Bytes(n) == s
    requires NodeGained(mem0, root0, m.mem, m.root, c) && |s| < 16
    requires var s' := PutByte(s, c, kind.Kind16? || |s| == 4); m.Contents() == ByteKeys(s')
    ensures ByteRoot(m, PutByte(s, c, kind.Kind16? || |s| == 4), GrowsTo(kind, |s|))
  {
    hide Kids, Bytes, PutByte, ByteKeys, Cells, Entries, Shaped;
    RootNode(m);
    KindOfList(mem0[root0].node);
    SmallIsList(m.mem[m.root].node);
  }

  lemma SmallIsList(n: Node)
    requires Sized(n) && (n.kind.Kind4? || n.kind.Kind16?)
    ensures IsList(n)
  {
  }

  lemma RootNode(m: RadixMap)
    requires m.Valid() && m.Contents() != {}
    ensures m.tree.Some? && m.root in m.mem && (m.mem[m.root].NodeCell? ==> Sized(m.mem[m.root].node))
  {
    hide Kids, LayoutOk, Cells, Entries, Shaped;
    if m.mem[m.root].NodeCell? { InnerFacts(m.mem, m.tree.value, []); }
  }

  method DropOne(m: RadixMap, c: Byte, ghost s: seq<Byte>, ghost kind: Kind)
    requires ByteRoot(m, s, kind) && c in s && |s| > 2
    modifies m
    ensures ByteRoot(m, DropByte(s, c), ShrinksTo(kind, |s|))
  {
    hide *;
    ByteNode(m, s, kind);
    ghost var mem0, root0, t0 := m.mem, m.root, m.tree.value;
    ByteGain(t0, c);
    RootContents(m, s, kind);
    var _ := m.Delete([c]);
    DropByteHas(s, c);
    OneByteLess(s, DropByte(s, c), c);
    SomeKeys(DropByte(s, c));
    LostRoot(mem0, root0, m, c, s, kind);
  }

  lemma SomeKeys(s: seq<Byte>)
    requires s != []
    ensures ByteKeys(s) != {}
  {
    assert s[0] in s;
    assert ([s[0]], 0) in ByteKeys(s);
  }

  lemma LostRoot(mem0: map<Ptr, Cell>, root0: Ptr, m: RadixMap, c: Byte, s: seq<Byte>, kind: Kind)
    requires root0 in mem0 && mem0[root0].NodeCell? && m.Valid() && m.Contents() != {}
    requires var n := mem0[root0].node; n.kind == kind && IsList(n) && Sized(n) && |Kids(n)| == |s| && Bytes(n) == s
    requires NodeLost(mem0, root0, m.mem, m.root, c) && m.Contents() == ByteKeys(DropByte(s, c))
    ensures ByteRoot(m, DropByte(s, c), ShrinksTo(kind, |s|))
  {
    hide Kids, Bytes, DropByte, ByteKeys, Cells, Entries, Shaped;
    RootNode(m);
  }

  /** Bytes from 128 on leave their mark even after their keys are gone: of the three keys that are left, all of bytes
      below 128, `art_minimum` does not give the least. */
  method NotLeast() returns (m: RadixMap, r: Option<Entry>)
    ensures fresh(m) && m.Valid() && m.Contents() == {([21], 0), ([16], 0), ([32], 0)}
    ensures r.Some? && r.value in m.Contents() && !IsLeast(m.Contents(), r.value)
  {
    hide *;
    m := TwoBytes();
    FirstSteps();
    PutOne(m, 48, [16, 32], Kind4);
    PutOne(m, 64, [16, 32, 48], Kind4);
    PutOne(m, 144, [16, 32, 48, 64], Kind4);
    DropOne(m, 64, [144, 16, 32, 48, 64], Kind16);
    DropOne(m, 48, [144, 16, 32, 48], Kind16);
    PutOne(m, 21, [144, 16, 32], Kind4);
    DropOne(m, 144, [21, 144, 16, 32], Kind4);
    FirstIsNotLeast(m);
    RootContents(m, [21, 16, 32], Kind4);
    r := m.First();
  }

  lemma FirstSteps()
    ensures PutByte([16, 32], 48, false) == [16, 32, 48]
    ensures PutByte([16, 32, 48], 64, false) == [16, 32, 48, 64]
    ensures PutByte([16, 32, 48, 64], 144, true) == [144, 16, 32, 48, 64]
    ensures DropByte([144, 16, 32, 48, 64], 64) == [144, 16, 32, 48]
    ensures DropByte([144, 16, 32, 48], 48) == [144, 16, 32]
    ensures PutByte([144, 16, 32], 21, false) == [21, 144, 16, 32]
    ensures DropByte([21, 144, 16, 32], 144) == [21, 16, 32]
    ensures GrowsTo(Kind4, 2) == GrowsTo(Kind4, 3) == Kind4 && GrowsTo(Kind4, 4) == Kind16
    ensures ShrinksTo(Kind16, 5) == Kind16 && ShrinksTo(Kind16, 4) == Kind4 && ShrinksTo(Kind4, 4) == Kind4
  {
  }

  method TwoBytes() returns (m: RadixMap)
    ensures fresh(m) && ByteRoot(m, [16, 32], Kind4)
  {
    hide *;
    m := new RadixMap();
    NoneStored();
    var _ := m.Insert([16], 0);
    OneLeaf(m);
    var _ := m.Insert([32], 0);
    TwoLeaves(m);
  }

  lemma NoneStored()
    ensures PrefixFree({}, [16]) && PrefixFree({([16], 0)}, [32]) && Put({}, [16], 0) == {([16], 0)}
    ensures Put({([16], 0)}, [32], 0) == {([16], 0), ([32], 0)} == ByteKeys([16, 32])
  {
    assert [16][0] != [32][0];
  }

  lemma OneLeaf(m: RadixMap)
    requires m.Valid() && m.Contents() == {([16], 0)}
    ensures m.tree.Some? && m.tree.value.Leaf? && m.tree.value.key == [16] && [16] != [32]
  {
    hide Kids, LayoutOk, Cells, NodeHolds;
    var t := m.tree.value;
    if t.Inner? {
      var e, f := Fork(t, []);
    }
    assert [16][0] != [32][0];
    assert (t.key, t.value) in Entries(t);
  }

  lemma TwoLeaves(m: RadixMap)
    requires m.Valid() && m.Contents() == {([16], 0), ([32], 0)} == ByteKeys([16, 32]) && IsFork(m.mem, m.root)
    ensures ByteRoot(m, [16, 32], Kind4)
  {
    hide *;
    ForkFacts(m);
    var t, n := m.tree.value, m.mem[m.root].node;
    InnerFacts(m.mem, t, []);
    ByteTree(t, [16, 32]);
    BytesOfTwo(t);
    TwoInOrder(n);
    ByteRootIs(m, [16, 32], Kind4);
  }

  lemma ForkFacts(m: RadixMap)
    requires m.Valid() && m.Contents() != {} && IsFork(m.mem, m.root)
    ensures m.tree.Some? && m.root == m.tree.value.at && Stands(m.mem, m.tree.value, [])
    ensures Entries(m.tree.value) == m.Contents() && m.root in m.mem && m.mem[m.root].NodeCell?
    ensures var n := m.mem[m.root].node; n.kind.Kind4? && IsList(n) && Ascends(n)
  {
    hide Cells, Entries, Stands, Ascends;
  }

  lemma BytesOfTwo(t: Tree)
    requires t.Inner? && forall b: Byte :: b in t.kids <==> b in [16, 32]
    ensures t.kids.Keys == {16, 32}
  {
  }

  lemma ByteRootIs(m: RadixMap, s: seq<Byte>, kind: Kind)
    requires m.Valid() && m.tree.Some? && m.root in m.mem && m.mem[m.root].NodeCell? && m.Contents() == ByteKeys(s)
    requires var n := m.mem[m.root].node; n.kind == kind && IsList(n) && Bytes(n) == s
    ensures ByteRoot(m, s, kind)
  {
    hide Cells, Entries, Stands, Bytes, ByteKeys;
  }

  lemma TwoInOrder(n: Node)
    requires LayoutOk(n) && IsList(n) && Ascends(n) && Sized(n) && Kids(n).Keys == {16, 32}
    ensures Bytes(n) == [16, 32]
  {
    ListFacts(n);
    KeysOfList(n);
    hide Kids, LayoutOk;
    assert |Kids(n)| == |Kids(n).Keys| == 2;
    TwoAscending(n.keys, Kids(n).Keys);
    assert n.keys[..2] == [n.keys[0], n.keys[1]];
  }

  lemma TwoAscending(keys: seq<Byte>, s: set<Byte>)
    requires |keys| >= 2 && keys[0] in s && keys[1] in s && keys[0] < keys[1] && s == {16, 32}
    ensures keys[0] == 16 && keys[1] == 32
  {
  }

  lemma FirstIsNotLeast(m: RadixMap)
    requires ByteRoot(m, [21, 16, 32], Kind4)
    ensures m.Valid() && m.tree.Some? && !FirstIsLeast(m.mem, m.tree.value)
    ensures m.Contents() == {([21], 0), ([16], 0), ([32], 0)}
  {
    hide *;
    RootContents(m, [21, 16, 32], Kind4);
    ThreeKeys();
    ByteNode(m, [21, 16, 32], Kind4);
    SmallerLater(m.mem, m.tree.value, [21, 16, 32]);
  }

  lemma ThreeKeys()
    ensures ByteKeys([21, 16, 32]) == {([21], 0), ([16], 0), ([32], 0)}
  {
    ByteKeysAre([21, 16, 32]);
  }

  lemma SmallerLater(mem: map<Ptr, Cell>, t: Tree, s: seq<Byte>)
    requires t.Inner? && t.at in mem && mem[t.at].NodeCell? && |s| > 1 && s[1] < s[0]
    requires forall b: Byte :: b in t.kids <==> b in s
    requires var n := mem[t.at].node; IsList(n) && Sized(n) && Bytes(n) == s && Kids(n).Keys == t.kids.Keys
    ensures !FirstIsLeast(mem, t)
  {
    hide Kids, FirstIsLeast;
    var n := mem[t.at].node;
    assert n.keys[0] == s[0] && s[0] in s && s[1] in s;
    FirstOfList(n);
    FirstBelow(mem, t, s[0]);
  }

  lemma FirstOfList(n: Node)
    requires IsList(n) && Sized(n) && n.numChildren > 0 && n.keys[0] in Kids(n)
    ensures IsFirst(n, n.keys[0])
  {
    hide Kids;
  }
}
