/** What stands in the first place of each leaf of a wB+-tree, told by the operations: a lookup that ends in a leaf
    without live entries reads it. */
module WbStale {
  import opened SortedPairs
  import opened KeyRanges
  import opened LeafStarts
  import opened WbNode
  import opened WbPlaces
  import opened WbCrash
  import opened WbShape
  import opened WbTree
  import opened WbLeaves
  import W = NodeWeb

  /** The entry in the first place of each leaf, by the start of the leaf. */
  type Zeros = map<int, Pair>

  ghost function ZeroAt(z: Zeros, s: int): Pair {
    if s in z then z[s] else Pair(0, 0)
  }

  /** The element of a set of one. */
  ghost function The(s: set<int>): int {
    if exists x :: x in s then var x :| x in s; x else 0
  }

  ghost function Bound(m: map<int, int>, k: int): Pair {
    Pair(k, if k in m then m[k] else 0)
  }

  /** A put uses the first place of a leaf unless a bound key of the leaf is there; a leaf that is split off has
      its greatest entry there; a rebinding changes a value there; a removal changes nothing. */
  ghost function StepZeros(p: Parts, z: Zeros, op: Op): Zeros {
    var s, near := LeafStart(p.starts, op.key), Near(p, op.key);
    var zero := ZeroAt(z, s);
    match op
    case Put(k, v) =>
      if |near| == 7 then
        var mid, last := The(Ranked(near, 4)), The(Ranked(near, 6));
        z[s := if k < mid && !(zero.key in near && zero.key < mid) then Pair(k, v) else zero][mid := Bound(p.m, last)]
      else z[s := if zero.key in near then zero else Pair(k, v)]
    case Rebind(k, v) => if zero.key == k && (k in p.m || near == {}) then z[s := Pair(k, v)] else z
    case Remove(_) => z
  }

  ghost function ZerosAfter(p: Parts, z: Zeros, ops: seq<Op>): Zeros
    decreases |ops|
  {
    if ops == [] then z
    else
      var before := ops[..|ops| - 1];
      StepZeros(PartsAfter(SPLIT, p, before), ZerosAfter(p, z, before), ops[|ops| - 1])
  }

  /** What a lookup answers: the bound value, or what a leaf without bound keys shows in its first place, or 0. */
  ghost function Answer(p: Parts, z: Zeros, key: int): int {
    if key in p.m then p.m[key]
    else
      var zero := ZeroAt(z, LeafStart(p.starts, key));
      if Near(p, key) == {} && zero.key == key then zero.tid else 0
  }

  // ---------------------------------------------------------------- the leaves of a tree

  ghost predicate ZeroIs(nodes: Nodes, info: Info, z: Zeros, n: Ptr) {
    n in nodes && n in info && ZeroKnown(nodes[n]) && info[n].lo in z && z[info[n].lo] == nodes[n].entries[0]
  }

  ghost predicate ZerosAre(nodes: Nodes, info: Info, z: Zeros) {
    forall n :: n in info && info[n].level == 0 ==> ZeroIs(nodes, info, z, n)
  }

  /** Leaves start at different keys. */
  ghost predicate StartsApart(info: Info) {
    forall n, m :: n in info && m in info && info[n].level == 0 && info[m].level == 0 && info[n].lo == info[m].lo
        ==> n == m
  }

  lemma ShapeApart(nodes: Nodes, info: Info, root: Ptr)
    requires Shape(nodes, info, map[], root)
    ensures StartsApart(info)
  {
    hide *;
    ShapeWeb(nodes, info, map[], root);
    W.ShapeParts(V(nodes), info, map[], root);
    forall n, m | n in info && m in info && info[n].level == 0 && info[m].level == 0 && info[n].lo == info[m].lo
      ensures n == m
    {
      LeafFits(V(nodes), info, root, n);
      LeafFits(V(nodes), info, root, m);
      if n != m { ApartAt(info, n, m); }
    }
    StartsApartIs(info);
  }

  lemma StartsApartIs(info: Info)
    requires forall n, m ::
      n in info && m in info && info[n].level == 0 && info[m].level == 0 && info[n].lo == info[m].lo ==> n == m
    ensures StartsApart(info)
  {
  }

  /** The leaf of a key, as the operations tell of it. */
  ghost predicate LeafOf(nodes: Nodes, info: Info, p: Parts, leaf: Ptr, key: int) {
    && leaf in nodes && leaf in info && info[leaf].level == 0 && NodeOk(nodes[leaf])
    && LeafStart(p.starts, key) == info[leaf].lo && Near(p, key) == Keys(Live(nodes[leaf]))
    && |Near(p, key)| == |Live(nodes[leaf])|
    && forall i :: 0 <= i < |Live(nodes[leaf])| ==> Bound(p.m, Live(nodes[leaf])[i].key) == Live(nodes[leaf])[i]
  }

  lemma LeafOfKey(nodes: Nodes, info: Info, root: Ptr, abs: map<int, int>, leaf: Ptr, key: int)
    requires Shape(nodes, info, map[], root) && Agree(nodes, info, abs) && Covers(nodes, info, leaf, key)
    requires leaf in info && info[leaf].level == 0
    ensures LeafOf(nodes, info, Parts(abs, Starts(info)), leaf, key)
  {
    hide *;
    WbLeaves.NearIsLive(nodes, info, root, abs, leaf, key);
    CoversParts(nodes, info, leaf, key);
    LeafDecides(nodes, info, root, abs, leaf, key);
    ShapeWeb(nodes, info, map[], root);
    CoversWeb(nodes, info, leaf, key);
    LeafHasStart(V(nodes), info, root, leaf, key);
    LeafOfIs(nodes, info, Parts(abs, Starts(info)), leaf, key, info[leaf].hi);
  }

  lemma LeafOfIs(nodes: Nodes, info: Info, p: Parts, leaf: Ptr, key: int, hi: int)
    requires leaf in nodes && leaf in info && info[leaf].level == 0 && NodeOk(nodes[leaf])
    requires IsStart(p.starts, info[leaf].lo, key) && Near(p, key) == Keys(Live(nodes[leaf]))
    requires |Keys(Live(nodes[leaf]))| == |Live(nodes[leaf])| && LeafAgrees(Live(nodes[leaf]), info[leaf].lo, hi, p.m)
    ensures LeafOf(nodes, info, p, leaf, key)
  {
    hide IsStart, Near, Keys;
  }

  lemma TheOne(x: int)
    ensures The({x}) == x
  {
  }

  /** The bound keys of the leaf, in order. */
  lemma RanksInLeaf(nodes: Nodes, info: Info, p: Parts, leaf: Ptr, key: int)
    requires LeafOf(nodes, info, p, leaf, key) && |Near(p, key)| == 7
    ensures leaf in nodes && Sized(nodes[leaf]) && |Live(nodes[leaf])| == 7
    ensures The(Ranked(Near(p, key), 4)) == Live(nodes[leaf])[4].key
    ensures Bound(p.m, The(Ranked(Near(p, key), 6))) == Live(nodes[leaf])[6]
    ensures forall k :: k in Near(p, key) && k < Live(nodes[leaf])[4].key <==> HasKey(Live(nodes[leaf])[..4], k)
  {
    hide LeafStart, Near, Bound, Ranked, The;
    var live := Live(nodes[leaf]);
    RankedKey(live, 4);
    RankedKey(live, 6);
    TheOne(live[4].key);
    TheOne(live[6].key);
    FirstKeys(live);
  }

  lemma FirstKeys(live: seq<Pair>)
    requires Strict(live) && |live| == 7
    ensures forall k :: k in Keys(live) && k < live[4].key <==> HasKey(live[..4], k)
  {
    forall k ensures k in Keys(live) && k < live[4].key <==> HasKey(live[..4], k) {
      if HasKey(live[..4], k) {
        var i :| 0 <= i < 4 && live[..4][i].key == k;
        assert live[i].key == k;
      }
      if HasKey(live, k) && k < live[4].key {
        var i :| 0 <= i < 7 && live[i].key == k;
        assert live[..4][i].key == k;
      }
    }
  }

  // ---------------------------------------------------------------- one operation

  /** A leaf changes; all others show in their first places what they showed. */
  lemma OneZero(nodes: Nodes, nodes': Nodes, info: Info, z: Zeros, leaf: Ptr, zero: Pair)
    requires ZerosAre(nodes, info, z) && StartsApart(info) && leaf in info && info[leaf].level == 0 && leaf in nodes'
    requires nodes' == nodes[leaf := nodes'[leaf]] && ZeroKnown(nodes'[leaf]) && nodes'[leaf].entries[0] == zero
    ensures ZerosAre(nodes', info, z[info[leaf].lo := zero])
  {
    forall n | n in info && info[n].level == 0 ensures ZeroIs(nodes', info, z[info[leaf].lo := zero], n) {
      assert ZeroIs(nodes, info, z, n);
      assert n != leaf ==> info[n].lo != info[leaf].lo;
    }
  }

  lemma ZeroHere(nodes: Nodes, info: Info, p: Parts, z: Zeros, leaf: Ptr, key: int)
    requires ZerosAre(nodes, info, z) && LeafOf(nodes, info, p, leaf, key)
    ensures leaf in nodes && leaf in info && info[leaf].level == 0 && LeafStart(p.starts, key) == info[leaf].lo
    ensures NodeOk(nodes[leaf]) && ZeroKnown(nodes[leaf])
    ensures ZeroAt(z, LeafStart(p.starts, key)) == nodes[leaf].entries[0] && info[leaf].lo in z
    ensures forall k :: k in Near(p, key) <==> HasKey(Live(nodes[leaf]), k)
    ensures |Near(p, key)| == |Live(nodes[leaf])| && (Near(p, key) == {} <==> Live(nodes[leaf]) == [])
  {
    assert ZeroIs(nodes, info, z, leaf);
    hide LeafStart, Near, Bound;
    if Live(nodes[leaf]) != [] { assert HasKey(Live(nodes[leaf]), Live(nodes[leaf])[0].key); }
  }

  lemma PutInRoom(nodes: Nodes, nodes': Nodes, info: Info, p: Parts, z: Zeros, leaf: Ptr, k: int, v: int)
    requires ZerosAre(nodes, info, z) && StartsApart(info) && LeafOf(nodes, info, p, leaf, k) && |Near(p, k)| != 7
    requires leaf in nodes && leaf in nodes' && nodes' == nodes[leaf := nodes'[leaf]]
    requires EntryPlaced(nodes[leaf], nodes'[leaf], Pair(k, v)) && |nodes'[leaf].entries| == 7
    ensures ZerosAre(nodes', info, StepZeros(p, z, Put(k, v)))
  {
    hide ZerosAre, StartsApart, LeafOf, LeafStart, Near, ZeroAt, EntryPlaced, ZeroKnown, The, Ranked;
    ZeroHere(nodes, info, p, z, leaf, k);
    ZeroPlaced(nodes[leaf], nodes'[leaf], Pair(k, v));
    OneZero(nodes, nodes', info, z, leaf, nodes'[leaf].entries[0]);
  }

  lemma RebindZero(nodes: Nodes, nodes': Nodes, info: Info, p: Parts, z: Zeros, leaf: Ptr, k: int, v: int, i: int)
    requires ZerosAre(nodes, info, z) && StartsApart(info) && LeafOf(nodes, info, p, leaf, k)
    requires leaf in nodes && Sized(nodes[leaf]) && 0 <= i < 7 && nodes[leaf].entries[i].key == k
    requires k in p.m ==> Used(nodes[leaf], i)
    requires k !in p.m ==> i == 0 && Live(nodes[leaf]) == []
    requires nodes' == nodes[leaf := nodes[leaf].(entries := nodes[leaf].entries[i := Pair(k, v)])]
    ensures ZerosAre(nodes', info, StepZeros(p, z, Rebind(k, v)))
  {
    hide ZerosAre, StartsApart, LeafOf, LeafStart, Near, ZeroAt, ZeroKnown, The, Ranked, Used;
    ZeroHere(nodes, info, p, z, leaf, k);
    ZeroRebound(nodes[leaf], i, k, v);
    OneZero(nodes, nodes', info, z, leaf, nodes'[leaf].entries[0]);
    ZeroStays(z, info[leaf].lo, nodes[leaf].entries[0]);
  }

  lemma ZeroStays(z: Zeros, s: int, zero: Pair)
    requires s in z && ZeroAt(z, s) == zero
    ensures z[s := zero] == z
  {
  }

  lemma RemoveZero(nodes: Nodes, nodes': Nodes, info: Info, p: Parts, z: Zeros, leaf: Ptr, k: int)
    requires ZerosAre(nodes, info, z) && StartsApart(info) && LeafOf(nodes, info, p, leaf, k)
    requires leaf in nodes && leaf in nodes' && nodes' == nodes[leaf := nodes'[leaf]]
    requires nodes'[leaf] == nodes[leaf].(slot := nodes'[leaf].slot) && FewerUsed(nodes[leaf], nodes'[leaf])
    ensures ZerosAre(nodes', info, z)
  {
    hide ZerosAre, StartsApart, LeafOf, LeafStart, Near, ZeroAt, ZeroKnown, FewerUsed;
    ZeroHere(nodes, info, p, z, leaf, k);
    ZeroDropped(nodes[leaf], nodes'[leaf]);
    OneZero(nodes, nodes', info, z, leaf, nodes'[leaf].entries[0]);
    ZeroStays(z, info[leaf].lo, nodes[leaf].entries[0]);
  }

  /** A leaf is parted: its first place, and that of the new leaf. */
  lemma TwoZeros(nodes: Nodes, nodes': Nodes, info: Info, info': Info, z: Zeros, leaf: Ptr, split: Ptr, e: Pair,
                 mid: int)
    requires ZerosAre(nodes, info, z) && StartsApart(info') && Parted(nodes, info, nodes', info', leaf, split, e)
    requires LeafParted(info, info', leaf, mid) && leaf in nodes' && split in nodes'
    requires ZeroKnown(nodes'[leaf]) && ZeroKnown(nodes'[split])
    ensures ZerosAre(nodes', info', z[info[leaf].lo := nodes'[leaf].entries[0]][mid := nodes'[split].entries[0]])
  {
    var z' := z[info[leaf].lo := nodes'[leaf].entries[0]][mid := nodes'[split].entries[0]];
    SplitRange(info, info', leaf, split, mid);
    forall n | n in info' && info'[n].level == 0 ensures ZeroIs(nodes', info', z', n) {
      assert n != leaf ==> info'[n].lo != info'[leaf].lo;
      assert n != split ==> info'[n].lo != info'[split].lo;
      if n != leaf && n != split {
        assert ZeroIs(nodes, info, z, n);
        ZeroSame(nodes[n], nodes'[n]);
      }
    }
  }

  lemma SplitRange(info: Info, info': Info, leaf: Ptr, split: Ptr, mid: int)
    requires LeafParted(info, info', leaf, mid) && split in info' && split !in info && info'[split].level == 0
    ensures info'[split].lo == mid && leaf != split && info'[leaf].lo == info[leaf].lo
    ensures forall n :: n in info' && info'[n].level == 0 && n != leaf && n != split ==>
      n in info && info[n].level == 0 && info'[n] == info[n]
  {
  }

  lemma PutSplits(nodes: Nodes, nodes': Nodes, info: Info, info': Info, p: Parts, z: Zeros, leaf: Ptr, split: Ptr,
                  k: int, v: int)
    requires ZerosAre(nodes, info, z) && StartsApart(info') && LeafOf(nodes, info, p, leaf, k) && |Near(p, k)| == 7
    requires Parted(nodes, info, nodes', info', leaf, split, Pair(k, v))
    requires leaf in nodes && Sized(nodes[leaf]) && |Live(nodes[leaf])| == 7
    requires LeafParted(info, info', leaf, Live(nodes[leaf])[4].key)
    ensures ZerosAre(nodes', info', StepZeros(p, z, Put(k, v)))
  {
    PartedParts(nodes, info, nodes', info', leaf, split, Pair(k, v));
    hide ZerosAre, StartsApart, LeafOf, LeafStart, Near, ZeroAt, ZeroKnown, Parted, LeafParted, The, Ranked, Bound,
        HasKey;
    ZeroHere(nodes, info, p, z, leaf, k);
    RanksInLeaf(nodes, info, p, leaf, k);
    TwoZeros(nodes, nodes', info, info', z, leaf, split, Pair(k, v), Live(nodes[leaf])[4].key);
  }

  lemma PartedParts(nodes: Nodes, info: Info, nodes': Nodes, info': Info, leaf: Ptr, split: Ptr, e: Pair)
    requires Parted(nodes, info, nodes', info', leaf, split, e) && leaf in nodes && ZeroKnown(nodes[leaf])
    ensures Sized(nodes[leaf]) && |Live(nodes[leaf])| == 7 && leaf in nodes' && split in nodes'
    ensures ZeroKnown(nodes'[leaf]) && ZeroKnown(nodes'[split])
    ensures nodes'[leaf].entries[0] == if e.key < Live(nodes[leaf])[4].key
        && !HasKey(Live(nodes[leaf])[..4], nodes[leaf].entries[0].key) then e else nodes[leaf].entries[0]
    ensures nodes'[split].entries[0] == Live(nodes[leaf])[6]
  {
  }

  // ---------------------------------------------------------------- runs

  lemma ZerosNone(p: Parts, z: Zeros, ops: seq<Op>)
    ensures ZerosAfter(p, z, ops[..0]) == z
  {
  }

  lemma ZerosMore(p: Parts, z: Zeros, ops: seq<Op>, i: nat)
    requires i < |ops|
    ensures ZerosAfter(p, z, ops[..i + 1]) == StepZeros(PartsAfter(SPLIT, p, ops[..i]), ZerosAfter(p, z, ops[..i]),
      ops[i])
  {
    assert ops[..i + 1][..i] == ops[..i];
  }
}
