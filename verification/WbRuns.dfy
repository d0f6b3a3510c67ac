/** What recovery gives back, and runs of operations on a wB+-tree. */
module WbRuns {
  import opened SortedPairs
  import opened KeyRanges
  import opened WbNode
  import opened WbPlaces
  import opened WbCrash
  import opened WbShape
  import W = NodeWeb
  import opened WbTree
  import opened LeafStarts
  import opened WbLeaves
  import opened WbStale

  // ---------------------------------------------------------------- recovery

  /** Memory that shows the tree's live words as they were. */
  ghost predicate SameLiveWords(nodes: Nodes, root: Ptr, nodes': Nodes) {
    && nodes'.Keys == nodes.Keys
    && (forall n :: n in nodes' ==> |nodes'[n].entries| == 7)
    && forall loc :: IsLive(nodes, root, loc) ==> ValAt(nodes', loc) == ValAt(nodes, loc)
  }

  /** Memory found after a crash during a logged operation, once the log is undone: of each word of
      an old node, one of its candidates went through the undo. */
  ghost predicate RecoveredFrom(base: Nodes, tr: Trace, nodes': Nodes) {
    && nodes'.Keys == base.Keys
    && (forall n :: n in nodes' ==> |nodes'[n].entries| == 7)
    && forall loc: Loc :: loc.n in base && InNode(loc) ==> exists v ::
       v in Candidates(base, tr, loc) && ValAt(nodes', loc) == Undone(tr, loc, v)
  }

  /** A node whose live words are as they were shows the same entries. */
  lemma SameNode(nodes: Nodes, root: Ptr, nodes': Nodes, n: Ptr)
    requires SameLiveWords(nodes, root, nodes') && n in nodes && NodeOk(nodes[n])
    ensures n in nodes' && NodeOk(nodes'[n]) && Live(nodes'[n]) == Live(nodes[n])
      && LiveOf(nodes', n) == LiveOf(nodes, n)
    ensures nodes'[n].leftmost == nodes[n].leftmost && nodes'[n].isLeaf == nodes[n].isLeaf
      && (n != root ==> nodes'[n].parent == nodes[n].parent)
  {
    var a, b := nodes[n], nodes'[n];
    assert IsLive(nodes, root, SlotOf(n)) && IsLive(nodes, root, LeftOf(n)) && IsLive(nodes, root, FlagOf(n));
    if n != root { assert IsLive(nodes, root, ParentOf(n)); }
    assert b.slot == a.slot;
    forall j | 1 <= j <= a.slot[0] ensures b.entries[a.slot[j]] == a.entries[a.slot[j]] {
      UsedAt(a, j);
      assert IsLive(nodes, root, KeyAt(n, a.slot[j])) && IsLive(nodes, root, TidAt(n, a.slot[j]));
    }
    assert Live(b) == Live(a);
  }

  /** Such memory holds the same well-formed tree with the same contents. */
  lemma RestoredIsValid(nodes: Nodes, root: Ptr, nodes': Nodes, info: Info, abs: map<int, int>)
    requires Shape(nodes, info, map[], root) && Agree(nodes, info, abs) && SameLiveWords(nodes, root, nodes')
    ensures Shape(nodes', info, map[], root) && Agree(nodes', info, abs)
  {
    hide *;
    ShapeParts(nodes, info, map[], root);
    ShapeWeb(nodes, info, map[], root);
    ShapeWeb(nodes', info, map[], root);
    SameKeys(nodes, root, nodes');
    Seen(nodes);
    Seen(nodes');
    forall n | n in nodes
      ensures NodeOk(nodes'[n]) && LiveOf(nodes', n) == LiveOf(nodes, n)
      ensures V(nodes')[n] == V(nodes)[n].(parent := V(nodes')[n].parent) && (n != root ==> V(nodes')[n] == V(nodes)[n])
    {
      OkAt(nodes, n);
      SameNode(nodes, root, nodes', n);
      SeenAt(nodes, n);
      SeenAt(nodes', n);
    }
    AllOkIs(nodes');
    W.RootParentFree(V(nodes), V(nodes'), info, root);
    AgreeFrame(nodes, nodes', info, info, abs);
  }

  lemma SameKeys(nodes: Nodes, root: Ptr, nodes': Nodes)
    requires SameLiveWords(nodes, root, nodes')
    ensures nodes'.Keys == nodes.Keys
  {
  }

  /** A crash at any point of a logged operation, and the undo, give back the old tree and its map. */
  lemma CrashIsUndone(base: Nodes, root: Ptr, tr: Trace, k: nat, nodes': Nodes, info: Info, abs: map<int, int>)
    requires Shape(base, info, map[], root) && Agree(base, info, abs)
    requires UndoSafe(base, root, tr) && k <= |tr| && RecoveredFrom(base, tr[..k], nodes')
    ensures Shape(nodes', info, map[], root) && Agree(nodes', info, abs)
  {
    assert SameLiveWords(base, root, nodes') by {
      hide Candidates, Undone, Shape, Agree;
      forall loc | IsLive(base, root, loc) ensures ValAt(nodes', loc) == ValAt(base, loc) {
        LiveInNode(base, root, loc);
        var v :| v in Candidates(base, tr[..k], loc) && ValAt(nodes', loc) == Undone(tr[..k], loc, v);
      }
    }
    RestoredIsValid(base, root, nodes', info, abs);
  }

  lemma LiveInNode(nodes: Nodes, root: Ptr, loc: Loc)
    requires IsLive(nodes, root, loc)
    ensures loc.n in nodes && InNode(loc)
  {
  }

  // ---------------------------------------------------------------- runs

  /** After any allowed run the tree holds exactly the map, its leaves are the stretches of keys that the operations
      lead to, and their first places hold what the operations put there. */
  method Replay(t: Tree, ops: seq<Op>, ghost z: Zeros)
    requires t.Valid() && AllAllowed(SPLIT, Parts(t.abs, Starts(t.info)), ops) && ZerosAre(t.nodes, t.info, z)
    modifies t
    ensures t.Valid() && Parts(t.abs, Starts(t.info)) == PartsAfter(SPLIT, Parts(old(t.abs), Starts(old(t.info))), ops)
    ensures ZerosAre(t.nodes, t.info, ZerosAfter(Parts(old(t.abs), Starts(old(t.info))), z, ops))
  {
    hide *;
    ghost var start := Parts(t.abs, Starts(t.info));
    PartsNone(SPLIT, start, ops);
    ZerosNone(start, z, ops);
    var i := 0;
    while i < |ops|
      invariant i <= |ops| && t.Valid() && Parts(t.abs, Starts(t.info)) == PartsAfter(SPLIT, start, ops[..i])
      invariant ZerosAre(t.nodes, t.info, ZerosAfter(start, z, ops[..i]))
    {
      PartsMore(SPLIT, start, ops, i);
      ZerosMore(start, z, ops, i);
      AllowedAt(SPLIT, start, ops, i);
      Apply(t, ops[i], ZerosAfter(start, z, ops[..i]));
      i := i + 1;
    }
    assert ops[..|ops|] == ops;
  }

  /** One operation. */
  method Apply(t: Tree, op: Op, ghost z: Zeros)
    requires t.Valid() && Allowed(t.abs, op) && ZerosAre(t.nodes, t.info, z)
    modifies t
    ensures t.Valid() && Parts(t.abs, Starts(t.info)) == StepParts(SPLIT, Parts(old(t.abs), Starts(old(t.info))), op)
    ensures ZerosAre(t.nodes, t.info, StepZeros(Parts(old(t.abs), Starts(old(t.info))), z, op))
  {
    hide *;
    AllowedIs(t.abs, op);
    ghost var nodes0, info0, root0, abs0 := t.nodes, t.info, t.root, t.abs;
    ghost var p := Parts(abs0, Starts(info0));
    t.ValidFacts();
    ShapeApart(nodes0, info0, root0);
    StepIs(SPLIT, p, op);
    SplitIs();
    match op {
      case Put(k, v) =>
        var splits;
        ghost var leaf, split;
        splits, leaf, split := t.Insert(k, v);
        WbLeaves.NearIsLive(nodes0, info0, root0, abs0, leaf, k);
        LeafOfKey(nodes0, info0, root0, abs0, leaf, k);
        if splits {
          RankedKey(LiveOf(nodes0, leaf), 4);
          PartedStarts(info0, t.info, leaf, LiveOf(nodes0, leaf)[4].key);
          t.ValidFacts();
          ShapeApart(t.nodes, t.info, t.root);
          LiveAtLeaf(nodes0, info0, p, leaf, k);
          PutSplits(nodes0, t.nodes, info0, t.info, p, z, leaf, split, k, v);
        } else {
          SizedEntries(t.nodes[leaf]);
          PutInRoom(nodes0, t.nodes, info0, p, z, leaf, k, v);
        }
      case Rebind(k, v) =>
        var r;
        ghost var leaf;
        r, leaf := t.Update(k, v);
        LeafOfKey(nodes0, info0, root0, abs0, leaf, k);
        LiveAtLeaf(nodes0, info0, p, leaf, k);
        if k in abs0 || StaleAt(nodes0, leaf, k) {
          RebindAt(nodes0, t.nodes, info0, p, z, leaf, k, v);
        } else {
          NothingStale(nodes0, info0, p, z, leaf, k, v);
        }
      case Remove(k) =>
        ghost var leaf := t.Delete(k);
        LeafOfKey(nodes0, info0, root0, abs0, leaf, k);
        RemoveZero(nodes0, t.nodes, info0, p, z, leaf, k);
        StepZerosRemove(p, z, k);
    }
  }

  /** From an empty tree: the answer for any key after any allowed run.  Only as long as nothing has been put, it
      depends on what the first node's memory held. */
  method LookupAfterRun(ops: seq<Op>, key: int) returns (r: int, ghost junk: Pair)
    requires 0 <= key < TOP && AllAllowed(SPLIT, Parts(map[], {0}), ops)
    ensures var first := Parts(map[], {0}); var p := PartsAfter(SPLIT, first, ops);
      && (ops != [] && ops[0].Put? ==> forall any :: r == Answer(p, ZerosAfter(first, map[0 := any], ops), key))
      && (key in p.m ==> r == p.m[key]) && (key !in p.m && Near(p, key) != {} ==> r == 0)
    ensures var first := Parts(map[], {0});
      r == Answer(PartsAfter(SPLIT, first, ops), ZerosAfter(first, map[0 := junk], ops), key)
  {
    hide *;
    var t := new Tree();
    FirstStarts(t.root);
    t.ValidFacts();
    junk := FirstZero(t.nodes, t.info, t.root);
    Replay(t, ops, map[0 := junk]);
    ghost var leaf;
    t.ValidFacts();
    r, leaf := t.Lookup(key);
    ghost var p, z := Parts(t.abs, Starts(t.info)), ZerosAfter(Parts(map[], {0}), map[0 := junk], ops);
    LeafOfKey(t.nodes, t.info, t.root, t.abs, leaf, key);
    LiveAtLeaf(t.nodes, t.info, p, leaf, key);
    AnswerIs(t.nodes, t.info, p, z, leaf, key);
    AnswerParts(p, z, key);
    if ops != [] && ops[0].Put? {
      forall any ensures ZerosAfter(Parts(map[], {0}), map[0 := any], ops) == z {
        JunkGone(junk, any, ops);
      }
    }
  }

  /** In particular: if no removal takes the last key of a leaf, the answer is that of the map. */
  method LookupAsMap(ops: seq<Op>, key: int) returns (r: int)
    requires ops != [] && ops[0].Put? && 0 <= key < TOP
    requires AllAllowed(SPLIT, Parts(map[], {0}), ops) && LeavesKeys(Parts(map[], {0}), ops)
    ensures var m := PartsAfter(SPLIT, Parts(map[], {0}), ops).m; r == if key in m then m[key] else 0
  {
    RunFills(ops);
    hide PartsAfter, Near, AllAllowed;
    ghost var junk;
    r, junk := LookupAfterRun(ops, key);
  }

  /** A key that is put into an empty tree and removed again is still found. */
  method StaleAnswer(key: int, value: int) returns (r: int)
    requires 0 <= key < TOP
    ensures r == value
  {
    PutAndGone(key, value);
    ghost var junk;
    hide *;
    r, junk := LookupAfterRun([Put(key, value), Remove(key)], key);
  }

  lemma PutAndGone(key: int, value: int)
    requires 0 <= key < TOP
    ensures var ops, first := [Put(key, value), Remove(key)], Parts(map[], {0});
      && AllAllowed(SPLIT, first, ops)
      && forall junk :: Answer(PartsAfter(SPLIT, first, ops), ZerosAfter(first, map[0 := junk], ops), key) == value
  {
    var ops, first := [Put(key, value), Remove(key)], Parts(map[], {0});
    var p1, p2 := Parts(map[key := value], {0}), Parts(map[], {0});
    PartsNone(SPLIT, first, ops);
    PartsMore(SPLIT, first, ops, 0);
    PartsMore(SPLIT, first, ops, 1);
    assert ops[..2] == ops;
    assert Near(first, key) == {};
    assert map[key := value] - {key} == map[];
    assert PartsAfter(SPLIT, first, ops[..1]) == p1;
    assert PartsAfter(SPLIT, first, ops) == p2;
    assert IsStart({0}, 0, key);
    forall junk ensures Answer(p2, ZerosAfter(first, map[0 := junk], ops), key) == value {
      ZerosNone(first, map[0 := junk], ops);
      ZerosMore(first, map[0 := junk], ops, 0);
      ZerosMore(first, map[0 := junk], ops, 1);
    }
  }

  lemma SizedEntries(n: Node)
    requires Sized(n)
    ensures |n.entries| == 7
  {
  }

  lemma LiveAtLeaf(nodes: Nodes, info: Info, p: Parts, leaf: Ptr, key: int)
    requires LeafOf(nodes, info, p, leaf, key)
    ensures leaf in nodes && Sized(nodes[leaf]) && |nodes[leaf].entries| == 7
    ensures LiveOf(nodes, leaf) == Live(nodes[leaf]) && |Near(p, key)| == |Live(nodes[leaf])|
  {
    hide Near, LeafStart;
    LiveOfIs(nodes, leaf);
  }

  lemma RebindAt(nodes: Nodes, nodes': Nodes, info: Info, p: Parts, z: Zeros, leaf: Ptr, k: int, v: int)
    requires ZerosAre(nodes, info, z) && StartsApart(info) && LeafOf(nodes, info, p, leaf, k)
    requires leaf in nodes && Sized(nodes[leaf]) && LiveOf(nodes, leaf) == Live(nodes[leaf])
    requires k in p.m || StaleAt(nodes, leaf, k)
    requires k !in p.m ==> nodes' == nodes[leaf := nodes[leaf].(entries := nodes[leaf].entries[0 := Pair(k, v)])]
    requires exists i :: 0 <= i < 7 && nodes[leaf].entries[i].key == k && (k in p.m ==> Used(nodes[leaf], i))
                         && nodes' == nodes[leaf := nodes[leaf].(entries := nodes[leaf].entries[i := Pair(k, v)])]
    ensures ZerosAre(nodes', info, StepZeros(p, z, Rebind(k, v)))
  {
    hide ZerosAre, StartsApart, LeafOf, StepZeros, Used, Live;
    if k in p.m {
      var i :| 0 <= i < 7 && nodes[leaf].entries[i].key == k && Used(nodes[leaf], i)
          && nodes' == nodes[leaf := nodes[leaf].(entries := nodes[leaf].entries[i := Pair(k, v)])];
      RebindZero(nodes, nodes', info, p, z, leaf, k, v, i);
    } else {
      RebindZero(nodes, nodes', info, p, z, leaf, k, v, 0);
    }
  }

  lemma NothingStale(nodes: Nodes, info: Info, p: Parts, z: Zeros, leaf: Ptr, k: int, v: int)
    requires ZerosAre(nodes, info, z) && LeafOf(nodes, info, p, leaf, k) && k !in p.m && !StaleAt(nodes, leaf, k)
    requires leaf in nodes && Sized(nodes[leaf]) && LiveOf(nodes, leaf) == Live(nodes[leaf])
    ensures StepZeros(p, z, Rebind(k, v)) == z
  {
    hide ZerosAre, LeafOf, Near, LeafStart, ZeroAt;
    ZeroHere(nodes, info, p, z, leaf, k);
  }

  lemma StepZerosRemove(p: Parts, z: Zeros, k: int)
    ensures StepZeros(p, z, Remove(k)) == z
  {
  }

  lemma FirstZero(nodes: Nodes, info: Info, root: Ptr) returns (junk: Pair)
    requires info == map[root := Range(0, TOP, 0)] && Shape(nodes, info, map[], root) && LiveOf(nodes, root) == []
    ensures ZerosAre(nodes, info, map[0 := junk])
  {
    hide W.Shape;
    ShapeParts(nodes, info, map[], root);
    OkAt(nodes, root);
    LiveOfIs(nodes, root);
    junk := nodes[root].entries[0];
    assert ZeroIs(nodes, info, map[0 := junk], root);
  }

  lemma AnswerIs(nodes: Nodes, info: Info, p: Parts, z: Zeros, leaf: Ptr, key: int)
    requires ZerosAre(nodes, info, z) && LeafOf(nodes, info, p, leaf, key)
    requires leaf in nodes && Sized(nodes[leaf]) && LiveOf(nodes, leaf) == Live(nodes[leaf])
      && |nodes[leaf].entries| == 7
    ensures Answer(p, z, key) == if key in p.m then p.m[key]
                                 else if StaleAt(nodes, leaf, key) then nodes[leaf].entries[0].tid else 0
  {
    hide ZerosAre, LeafOf, Near, LeafStart, ZeroAt;
    ZeroHere(nodes, info, p, z, leaf, key);
  }

  lemma AnswerParts(p: Parts, z: Zeros, key: int)
    ensures key in p.m ==> Answer(p, z, key) == p.m[key]
    ensures key !in p.m && Near(p, key) != {} ==> Answer(p, z, key) == 0
  {
  }

  /** The first put overwrites what the memory held. */
  lemma {:induction false} JunkGone(a: Pair, b: Pair, ops: seq<Op>)
    requires ops != [] && ops[0].Put? && AllAllowed(SPLIT, Parts(map[], {0}), ops)
    ensures ZerosAfter(Parts(map[], {0}), map[0 := a], ops) == ZerosAfter(Parts(map[], {0}), map[0 := b], ops)
    decreases |ops|
  {
    var first, n := Parts(map[], {0}), |ops| - 1;
    var before := ops[..n];
    if n == 0 {
      assert before == [] && ops == [ops[0]];
      assert Near(first, ops[0].key) == {};
      AllowedAt(SPLIT, first, ops, 0);
      assert IsStart({0}, 0, ops[0].key);
      assert map[0 := a][0 := Pair(ops[0].key, ops[0].value)] == map[0 := b][0 := Pair(ops[0].key, ops[0].value)];
    } else {
      AllowedBefore(SPLIT, first, ops);
      JunkGone(a, b, before);
    }
  }
}
