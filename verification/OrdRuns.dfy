/** Whole runs on the ordered adaptive radix tree: what its two lookups answer, and where its extremes are. */
module OrdRuns {
  import opened ArtShape
  import opened OrdNode
  import opened OrdTree
  import opened OrdLookup

  // ---------------------------------------------------------------- runs

  datatype Op = Add(tid: nat) | Remove(key: Key)

  ghost function AfterOp(load: Loader, es: set<Entry>, op: Op): set<Entry> {
    match op
    case Add(tid) => Put(es, load(tid), tid)
    case Remove(key) => Without(es, key)
  }

  ghost function After(load: Loader, ops: seq<Op>): set<Entry> {
    if ops == [] then {} else AfterOp(load, After(load, ops[..|ops| - 1]), ops[|ops| - 1])
  }

  /** Keys have one length, and a tuple is added only when its key is not stored. */
  ghost predicate Admissible(load: Loader, ops: seq<Op>, len: nat) {
    forall i :: 0 <= i < |ops| ==> Allowed(load, After(load, ops[..i]), ops[i], len)
  }

  ghost predicate Allowed(load: Loader, es: set<Entry>, op: Op, len: nat) {
    match op
    case Add(tid) => |load(tid)| == len && !HasKey(es, load(tid))
    case Remove(key) => |key| == len
  }

  ghost function Stored(t: Option<Tree>): set<Entry> {
    if t.Some? then Entries(t.value) else {}
  }

  /** The root pointer stands for the tree, if any. */
  ghost predicate Rooted(load: Loader, root: Option<Ref>, t: Option<Tree>, len: nat) {
    && (root.Some? <==> t.Some?)
    && (t.Some? ==> Below(load, root.value, t.value, [], len))
  }

  /** A root pointer and the operations that are given its address. */
  class Index {
    const load: Loader
    const len: nat
    var root: Option<Ref>
    ghost var tree: Option<Tree>

    ghost predicate Valid()
      reads this
    {
      Rooted(load, root, tree, len)
    }

    ghost function Contents(): set<Entry>
      reads this
    {
      Stored(tree)
    }

    constructor (load: Loader, len: nat)
      ensures Valid() && Contents() == {} && this.load == load && this.len == len
    {
      this.load, this.len := load, len;
      root, tree := None, None;
    }

    method Insert(tid: nat)
      requires Valid() && |load(tid)| == len && !HasKey(Contents(), load(tid))
      modifies this
      ensures Valid() && Contents() == Put(old(Contents()), load(tid), tid)
    {
      hide Below, Stands, Shaped, Entries, Lengths, HasKey, Put, Without;
      var key := load(tid);
      if root.None? {
        ghost var leaf := Leaf(0, key, tid);
        root, tree := Some(LeafRef(tid)), Some(leaf);
        FirstLeaf(load, leaf, len);
      } else {
        LengthsAfter(load, root.value, tree.value, Add(tid), len);
        var c;
        ghost var s;
        c, s := OrdTree.Insert(load, root.value, key, tid, 0, tree.value, []);
        BelowIs(load, c, s, len);
        root, tree := Some(c), Some(s);
      }
    }

    method Erase(key: Key)
      requires Valid() && |key| == len
      modifies this
      ensures Valid() && Contents() == Without(old(Contents()), key)
    {
      hide Below, Stands, Shaped, Entries, Lengths, HasKey, Put, Without;
      if root.None? {
        NothingLeft(key);
      } else {
        LengthsAfter(load, root.value, tree.value, Remove(key), len);
        var r;
        ghost var t;
        r, t := OrdTree.Erase(load, root.value, key, 0, tree.value, []);
        if t.Some? { BelowIs(load, r.value, t.value, len); }
        root, tree := r, t;
      }
    }
  }

  lemma NothingLeft(key: Key)
    ensures Without({}, key) == {}
  {
  }

  lemma FirstLeaf(load: Loader, leaf: Tree, len: nat)
    requires leaf.Leaf? && leaf.key == load(leaf.value) && |leaf.key| == len
    ensures Below(load, LeafRef(leaf.value), leaf, [], len) && Entries(leaf) == Put({}, leaf.key, leaf.value)
  {
    NothingLeft(leaf.key);
  }

  lemma LengthsAfter(load: Loader, c: Ref, t: Tree, op: Op, len: nat)
    requires Below(load, c, t, [], len) && Allowed(load, Entries(t), op, len)
    ensures Lengths(AfterOp(load, Entries(t), op), len)
  {
  }

  lemma BelowIs(load: Loader, c: Ref, t: Tree, len: nat)
    requires Stands(load, c, t) && Shaped(t, []) && Lengths(Entries(t), len)
    ensures Below(load, c, t, [], len)
  {
  }

  /** Over every run the tree holds the tuples that the run denotes. */
  method Replay(ix: Index, ops: seq<Op>)
    requires ix.Valid() && ix.Contents() == {} && Admissible(ix.load, ops, ix.len)
    modifies ix
    ensures ix.Valid() && ix.Contents() == After(ix.load, ops)
    ensures ix.root.None? <==> After(ix.load, ops) == {}
  {
    for i := 0 to |ops|
      invariant ix.Valid() && ix.Contents() == After(ix.load, ops[..i])
    {
      hide *;
      AfterNext(ix.load, ops, i, ix.len);
      match ops[i] {
        case Add(tid) => ix.Insert(tid);
        case Remove(key) => ix.Erase(key);
      }
    }
    assert ops[..|ops|] == ops;
    NothingStored(ix);
  }

  lemma NothingStored(ix: Index)
    requires ix.Valid()
    ensures ix.root.None? <==> ix.Contents() == {}
  {
    if ix.root.Some? {
      var e := NotEmpty(ix.tree.value, []);
    }
  }

  lemma AfterNext(load: Loader, ops: seq<Op>, i: nat, len: nat)
    requires Admissible(load, ops, len) && i < |ops|
    ensures ops[i].Add? ==>
      var tid := ops[i].tid;
      && |load(tid)| == len && !HasKey(After(load, ops[..i]), load(tid))
      && After(load, ops[..i + 1]) == Put(After(load, ops[..i]), load(tid), tid)
    ensures ops[i].Remove? ==>
      |ops[i].key| == len && After(load, ops[..i + 1]) == Without(After(load, ops[..i]), ops[i].key)
  {
    assert ops[..i + 1][..i] == ops[..i];
    assert Allowed(load, After(load, ops[..i]), ops[i], len);
  }

  /** After a run both lookups give the tuple of the key, for keys of at most nine bytes. */
  method LookupsAgree(load: Loader, ops: seq<Op>, key: Key) returns (r: Option<nat>, p: Option<nat>)
    requires Admissible(load, ops, |key|) && |key| <= 9
    ensures r == p && (r.Some? <==> HasKey(After(load, ops), key))
    ensures r.Some? ==> (key, r.value) in After(load, ops)
  {
    var ix := new Index(load, |key|);
    Replay(ix, ops);
    r := Lookup(load, ix.root, key, ix.tree);
    p := LookupPessimistic(load, ix.root, key, ix.tree);
    if ix.tree.Some? {
      ghost var t := ix.tree.value;
      BelowShaped(load, ix.root.value, t, [], |key|);
      ShortKeys(t, [], |key|);
      FoundAnswers(t, [], key, false);
      if r.Some? { Functional(t, [], key, r.value, p.value); }
    }
  }

  /** After a run the first and the last leaf hold the least and the greatest key by unsigned bytes. */
  method Extremes(load: Loader, ops: seq<Op>, len: nat) returns (r: Option<(nat, nat)>)
    requires Admissible(load, ops, len)
    ensures r.None? <==> After(load, ops) == {}
    ensures r.Some? ==>
      var (min, max) := r.value;
      && (load(min), min) in After(load, ops) && (load(max), max) in After(load, ops)
      && forall e :: e in After(load, ops) ==> Before(load(min), e.0) && Before(e.0, load(max))
  {
    var ix := new Index(load, len);
    Replay(ix, ops);
    if ix.root.None? { return None; }
    BelowShaped(load, ix.root.value, ix.tree.value, [], len);
    var min := Minimum(load, ix.root.value, ix.tree.value, []);
    var max := Maximum(load, ix.root.value, ix.tree.value, []);
    r := Some((min, max));
  }

  /** Ten bytes are too many: with two keys that differ only at the end, a key with another start finds one. */
  method Misled(load: Loader, k: Key, b: Byte, v: nat, b': Byte, v': nat, x: Byte) returns (r: Option<nat>)
    requires |k| >= 9 && b != b' && load(v) == k + [b] && load(v') == k + [b'] && x != k[0]
    ensures r == Some(v) && !HasKey(After(load, [Add(v), Add(v')]), k[0 := x] + [b])
  {
    TwoAdded(load, k, b, v, b', v');
    var ix := new Index(load, |k| + 1);
    Replay(ix, [Add(v), Add(v')]);
    TwinsFound(load, ix.root, ix.tree, k, b, v, b', v', x);
    r := Lookup(load, ix.root, k[0 := x] + [b], ix.tree);
    NoThird(k, b, v, b', v', x);
  }

  lemma TwoAdded(load: Loader, k: Key, b: Byte, v: nat, b': Byte, v': nat)
    requires b != b' && load(v) == k + [b] && load(v') == k + [b']
    ensures Admissible(load, [Add(v), Add(v')], |k| + 1)
    ensures After(load, [Add(v), Add(v')]) == {(k + [b], v), (k + [b'], v')}
  {
    var ops := [Add(v), Add(v')];
    assert ops[..0] == [] && ops[..1] == [Add(v)] && ops[..1][..0] == [];
    assert (k + [b])[|k|] != (k + [b'])[|k|];
    assert After(load, ops[..1]) == AfterOp(load, {}, Add(v)) == {(k + [b], v)};
  }

  lemma TwinsFound(load: Loader, root: Option<Ref>, t: Option<Tree>, k: Key, b: Byte, v: nat, b': Byte, v': nat,
                   x: Byte)
    requires Rooted(load, root, t, |k| + 1) && |k| >= 9 && b != b' && Stored(t) == {(k + [b], v), (k + [b'], v')}
    ensures t.Some? && Found(t.value, k[0 := x] + [b], 0, false) == Some(v)
  {
    BelowShaped(load, root.value, t.value, [], |k| + 1);
    TwinsShaped(k, b, v, b', v');
    hide *;
    TwinsFind(t.value, k, b, v, b', v', k[0 := x] + [b]);
  }

  lemma TwinsFind(t: Tree, k: Key, b: Byte, v: nat, b': Byte, v': nat, key: Key)
    requires Shaped(t, []) && Shaped(Twins(k, b, v, b', v'), []) && Entries(t) == {(k + [b], v), (k + [b'], v')}
    requires Entries(Twins(k, b, v, b', v')) == Entries(t) && |k| >= 9 && b != b'
    requires |key| == |k| + 1 && key[|k|] == b
    ensures Found(t, key, 0, false) == Some(v)
  {
    hide Shaped, Entries, Found, Twins;
    KeysDetermineShape(Twins(k, b, v, b', v'), t, []);
    TwinsAre(t, k, b, v, b', v');
    LeafOfEntry(t, k, b, v);
    FoundBelow(t, key, 0, false);
    UsedUp(t.kids[b], key);
  }

  lemma UsedUp(t: Tree, key: Key)
    requires t.Leaf?
    ensures Found(t, key, |key|, true) == Some(t.value)
  {
  }

  lemma TwinsAre(t: Tree, k: Key, b: Byte, v: nat, b': Byte, v': nat)
    requires SameShape(Twins(k, b, v, b', v'), t) && b != b'
    ensures t.Inner? && t.prefix == k && b in t.kids && t.kids[b].Leaf?
  {
    var s := Twins(k, b, v, b', v');
    assert b in s.kids && SameShape(s.kids[b], t.kids[b]);
  }

  lemma LeafOfEntry(t: Tree, k: Key, b: Byte, v: nat)
    requires t.Inner? && t.prefix == k && b in t.kids && t.kids[b].Leaf? && Shaped(t, []) && (k + [b], v) in Entries(t)
    ensures t.kids[b].value == v && t.kids[b].key == k + [b]
  {
    KeysFollowPath(t, [], (k + [b], v));
    assert [] + t.prefix == k && (k + [b])[|k|] == b;
  }

  lemma NoThird(k: Key, b: Byte, v: nat, b': Byte, v': nat, x: Byte)
    requires |k| > 0 && x != k[0]
    ensures !HasKey({(k + [b], v), (k + [b'], v')}, k[0 := x] + [b])
  {
    assert (k[0 := x] + [b])[0] == x && (k + [b])[0] == k[0] && (k + [b'])[0] == k[0];
  }
}
