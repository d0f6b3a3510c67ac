/** What a crash in the middle of an operation on a wB+-tree leaves: the old tree or the new one, and at the end the
    new one. */
module WbAtomic {
  import opened SortedPairs
  import opened KeyRanges
  import opened WbNode
  import opened WbCrash
  import opened WbShape
  import opened WbTree
  import opened WbRuns

  /** Memory found after a crash: each word of each node has one of its candidates. */
  ghost predicate FoundAfter(base: Nodes, tr: Trace, ps: set<Ptr>, found: Nodes) {
    && found.Keys == ps
    && (forall n :: n in found ==> |found[n].entries| == 7)
    && forall loc: Loc :: loc.n in ps && InNode(loc) ==> ValAt(found, loc) in Candidates(base, tr, loc)
  }

  /** The tree in memory is well formed and holds the map. */
  ghost predicate IsTree(nodes: Nodes, info: Info, root: Ptr, abs: map<int, int>) {
    Shape(nodes, info, map[], root) && Agree(nodes, info, abs)
  }

  lemma TreeIs(nodes: Nodes, info: Info, root: Ptr, abs: map<int, int>)
    ensures IsTree(nodes, info, root, abs) <==> Shape(nodes, info, map[], root) && Agree(nodes, info, abs)
  {
    hide Shape, Agree;
  }

  lemma FoundAt(base: Nodes, tr: Trace, ps: set<Ptr>, found: Nodes, nodes: Nodes, root: Ptr, loc: Loc)
    requires FoundAfter(base, tr, ps, found) && ps == nodes.Keys && IsLive(nodes, root, loc)
    ensures ValAt(found, loc) in Candidates(base, tr, loc)
  {
    hide Candidates;
    LiveInNode(nodes, root, loc);
  }

  lemma FoundLive(base: Nodes, tr: Trace, found: Nodes, nodes: Nodes, root: Ptr)
    requires FoundAfter(base, tr, nodes.Keys, found)
    requires forall loc :: IsLive(nodes, root, loc) ==>
      forall v :: v in Candidates(base, tr, loc) && v == ValAt(found, loc) ==> v == ValAt(nodes, loc)
    ensures SameLiveWords(nodes, root, found)
  {
    hide Candidates, IsLive, ValAt;
    forall loc | IsLive(nodes, root, loc) ensures ValAt(found, loc) == ValAt(nodes, loc) {
      FoundAt(base, tr, nodes.Keys, found, nodes, root, loc);
    }
  }

  /** Once an operation is over, a crash leaves the new tree. */
  lemma PersistedIsFound(base: Nodes, tr: Trace, nodes: Nodes, root: Ptr, info: Info, abs: map<int, int>, found: Nodes)
    requires IsTree(nodes, info, root, abs) && Persisted(base, tr, nodes, root)
    requires FoundAfter(base, tr, nodes.Keys, found)
    ensures IsTree(found, info, root, abs)
  {
    FoundLive(base, tr, found, nodes, root) by { hide Candidates, IsLive, ValAt, FoundAfter; }
    hide SameLiveWords, Shape, Agree;
    RestoredIsValid(nodes, root, found, info, abs);
  }

  /** A crash in the middle of a change of one leaf, published by one slot store: the old tree or the new one. */
  lemma LeafCrash(base: Nodes, root: Ptr, tr: Trace, k: nat, leaf: Ptr, node': Node, info: Info, abs: map<int, int>,
                  abs': map<int, int>, found: Nodes)
    requires IsTree(base, info, root, abs) && leaf in base && IsTree(base[leaf := node'], info, root, abs')
    requires node' == base[leaf].(slot := node'.slot, entries := node'.entries)
    requires LeafAtomic(base, root, tr, leaf, node') && k <= |tr| && FoundAfter(base, tr[..k], base.Keys, found)
    ensures IsTree(found, info, root, abs) || IsTree(found, info, root, abs')
  {
    hide Shape, Agree;
    var v := ValAt(found, SlotOf(leaf));
    FoundAt(base, tr[..k], base.Keys, found, base, root, SlotOf(leaf)) by { hide Candidates, Shows; }
    if v == Slots(base[leaf].slot) && Shows(base, tr[..k], leaf, base[leaf].slot, Live(base[leaf])) {
      OldLeafFound(base, root, tr, k, leaf, node', found);
      hide SameLiveWords, LeafAtomic, FoundAfter;
      RestoredIsValid(base, root, found, info, abs);
    } else {
      NewLeafFound(base, root, tr, k, leaf, node', found);
      hide SameLiveWords, LeafAtomic, FoundAfter;
      RestoredIsValid(base[leaf := node'], root, found, info, abs');
    }
  }

  lemma OldLeafFound(base: Nodes, root: Ptr, tr: Trace, k: nat, leaf: Ptr, node': Node, found: Nodes)
    requires LeafAtomic(base, root, tr, leaf, node') && k <= |tr| && FoundAfter(base, tr[..k], base.Keys, found)
    requires leaf in base && ValAt(found, SlotOf(leaf)) == Slots(base[leaf].slot)
    ensures SameLiveWords(base, root, found)
  {
    hide Candidates, Shows;
    forall loc | IsLive(base, root, loc) ensures ValAt(found, loc) == ValAt(base, loc) {
      FoundAt(base, tr[..k], base.Keys, found, base, root, loc);
    }
  }

  lemma NewLeafFound(base: Nodes, root: Ptr, tr: Trace, k: nat, leaf: Ptr, node': Node, found: Nodes)
    requires LeafAtomic(base, root, tr, leaf, node') && k <= |tr| && FoundAfter(base, tr[..k], base.Keys, found)
    requires leaf in base && node' == base[leaf].(slot := node'.slot, entries := node'.entries)
    requires ValAt(found, SlotOf(leaf)) == Slots(node'.slot) && Shows(base, tr[..k], leaf, node'.slot, Live(node'))
    ensures SameLiveWords(base[leaf := node'], root, found)
  {
    hide Candidates;
    var nodes := base[leaf := node'];
    assert nodes.Keys == base.Keys;
    forall loc | IsLive(nodes, root, loc) ensures ValAt(found, loc) == ValAt(nodes, loc) {
      FoundAt(base, tr[..k], base.Keys, found, nodes, root, loc);
      if loc.n == leaf && (loc.KeyAt? || loc.TidAt?) {
        ShownAt(base, tr[..k], leaf, node', loc.i);
      } else if loc != SlotOf(leaf) {
        assert IsLive(base, root, loc);
      }
    }
  }

  lemma ShownAt(base: Nodes, tr: Trace, leaf: Ptr, node': Node, i: int)
    requires Sized(node') && Shows(base, tr, leaf, node'.slot, Live(node')) && 0 <= i < 7 && Used(node', i)
    ensures Candidates(base, tr, KeyAt(leaf, i)) == {Word(node'.entries[i].key)}
    ensures Candidates(base, tr, TidAt(leaf, i)) == {Word(node'.entries[i].tid)}
  {
    hide Candidates;
    var j :| 1 <= j < node'.slot[0] + 1 && node'.slot[j] == i;
    assert Live(node')[j - 1] == node'.entries[i];
  }

  // ---------------------------------------------------------------- one word

  /** One word is stored and flushed. */
  lemma WordCandidates(base: Nodes, loc: Loc, v: Val, k: nat, l: Loc)
    requires k <= 2
    ensures var tr: Trace := [Store(loc, v), Event.Flush({loc})];
      && (l != loc || k == 0 ==> Candidates(base, tr[..k], l) == {ValAt(base, l)})
      && (l == loc && k == 1 ==> Candidates(base, tr[..k], l) == {ValAt(base, l), v})
      && (l == loc && k == 2 ==> Candidates(base, tr[..k], l) == {v})
  {
    var tr: Trace := [Store(loc, v), Event.Flush({loc})];
    assert tr[..0] == [] && tr[..1] == [] + [tr[0]] && tr[..2] == tr[..1] + [tr[1]];
    hide ValAt;
    CandidatesMore(base, [], tr[0], l);
    CandidatesMore(base, tr[..1], tr[1], l);
  }

  lemma WordCrash(base: Nodes, root: Ptr, leaf: Ptr, i: int, e: Pair, k: nat, info: Info, abs: map<int, int>,
                  abs': map<int, int>, found: Nodes)
    requires leaf in base && 0 <= i < 7 && |base[leaf].entries| == 7 && base[leaf].entries[i].key == e.key && k <= 2
    requires var nodes := base[leaf := base[leaf].(entries := base[leaf].entries[i := e])];
      IsTree(base, info, root, abs) && IsTree(nodes, info, root, abs')
    requires var tr: Trace := [Store(TidAt(leaf, i), Word(e.tid)), Event.Flush({TidAt(leaf, i)})];
      FoundAfter(base, tr[..k], base.Keys, found)
    ensures IsTree(found, info, root, abs) || IsTree(found, info, root, abs')
  {
    var nodes := base[leaf := base[leaf].(entries := base[leaf].entries[i := e])];
    var tr: Trace := [Store(TidAt(leaf, i), Word(e.tid)), Event.Flush({TidAt(leaf, i)})];
    if ValAt(found, TidAt(leaf, i)) == ValAt(base, TidAt(leaf, i)) {
      OldWordFound(base, root, TidAt(leaf, i), Word(e.tid), k, found);
      hide *;
      TreeIs(base, info, root, abs);
      RestoredIsValid(base, root, found, info, abs);
      TreeIs(found, info, root, abs);
    } else {
      NewWordFound(base, root, leaf, i, e, k, found);
      hide *;
      TreeIs(nodes, info, root, abs');
      RestoredIsValid(nodes, root, found, info, abs');
      TreeIs(found, info, root, abs');
    }
  }

  lemma OldWordFound(base: Nodes, root: Ptr, loc: Loc, v: Val, k: nat, found: Nodes)
    requires k <= 2 && ValAt(found, loc) == ValAt(base, loc)
    requires var tr: Trace := [Store(loc, v), Event.Flush({loc})]; FoundAfter(base, tr[..k], base.Keys, found)
    ensures SameLiveWords(base, root, found)
  {
    var tr: Trace := [Store(loc, v), Event.Flush({loc})];
    hide Candidates, ValAt, IsLive;
    forall l | IsLive(base, root, l) ensures ValAt(found, l) == ValAt(base, l) {
      WordCandidates(base, loc, v, k, l);
      FoundAt(base, tr[..k], base.Keys, found, base, root, l);
    }
  }

  lemma NewWordFound(base: Nodes, root: Ptr, leaf: Ptr, i: int, e: Pair, k: nat, found: Nodes)
    requires leaf in base && 0 <= i < 7 && |base[leaf].entries| == 7 && base[leaf].entries[i].key == e.key && k <= 2
    requires ValAt(found, TidAt(leaf, i)) != ValAt(base, TidAt(leaf, i))
    requires var tr: Trace := [Store(TidAt(leaf, i), Word(e.tid)), Event.Flush({TidAt(leaf, i)})];
      FoundAfter(base, tr[..k], base.Keys, found)
    ensures SameLiveWords(base[leaf := base[leaf].(entries := base[leaf].entries[i := e])], root, found)
  {
    var loc, v := TidAt(leaf, i), Word(e.tid);
    var tr: Trace := [Store(loc, v), Event.Flush({loc})];
    var nodes := base[leaf := base[leaf].(entries := base[leaf].entries[i := e])];
    assert nodes.Keys == base.Keys;
    OneWord(base, leaf, i, e);
    hide Candidates, ValAt, IsLive;
    forall l | IsLive(nodes, root, l) ensures ValAt(found, l) == ValAt(nodes, l) {
      WordCandidates(base, loc, v, k, l);
      FoundAt(base, tr[..k], base.Keys, found, nodes, root, l);
    }
  }

  lemma OneWord(base: Nodes, leaf: Ptr, i: int, e: Pair)
    requires leaf in base && 0 <= i < 7 && |base[leaf].entries| == 7 && base[leaf].entries[i].key == e.key
    ensures var nodes := base[leaf := base[leaf].(entries := base[leaf].entries[i := e])];
      forall l :: ValAt(nodes, l) == if l == TidAt(leaf, i) then Word(e.tid) else ValAt(base, l)
  {
  }

  // ---------------------------------------------------------------- the operations

  /** Whatever is found after a crash at any point is the old tree or the new one. */
  ghost predicate OldOrNew(base: Nodes, tr: Trace, info: Info, root: Ptr, abs: map<int, int>, abs': map<int, int>) {
    forall k: nat, found :: k <= |tr| && FoundAfter(base, tr[..k], base.Keys, found) ==>
      IsTree(found, info, root, abs) || IsTree(found, info, root, abs')
  }

  /** Whatever recovery makes of what is found after a crash at any point is the old tree. */
  ghost predicate OldWhenUndone(base: Nodes, tr: Trace, info: Info, root: Ptr, abs: map<int, int>) {
    forall k: nat, found :: k <= |tr| && RecoveredFrom(base, tr[..k], found) ==> IsTree(found, info, root, abs)
  }

  /** Whatever is found after a crash at the end is the new tree. */
  ghost predicate NewAtEnd(base: Nodes, tr: Trace, ps: set<Ptr>, info: Info, root: Ptr, abs: map<int, int>) {
    forall found :: FoundAfter(base, tr, ps, found) ==> IsTree(found, info, root, abs)
  }

  lemma OldOrNewIs(base: Nodes, tr: Trace, info: Info, root: Ptr, abs: map<int, int>, abs': map<int, int>)
    requires forall k: nat, found :: k <= |tr| && FoundAfter(base, tr[..k], base.Keys, found) ==>
      IsTree(found, info, root, abs) || IsTree(found, info, root, abs')
    ensures OldOrNew(base, tr, info, root, abs, abs')
  {
    hide FoundAfter, IsTree;
  }

  lemma OldWhenUndoneIs(base: Nodes, tr: Trace, info: Info, root: Ptr, abs: map<int, int>)
    requires forall k: nat, found :: k <= |tr| && RecoveredFrom(base, tr[..k], found) ==> IsTree(found, info, root, abs)
    ensures OldWhenUndone(base, tr, info, root, abs)
  {
    hide RecoveredFrom, IsTree;
  }

  lemma NewAtEndIs(base: Nodes, tr: Trace, nodes: Nodes, root: Ptr, info: Info, abs: map<int, int>)
    requires IsTree(nodes, info, root, abs) && Persisted(base, tr, nodes, root)
    ensures NewAtEnd(base, tr, nodes.Keys, info, root, abs)
  {
    hide FoundAfter, IsTree, Persisted;
    forall found | FoundAfter(base, tr, nodes.Keys, found) ensures IsTree(found, info, root, abs) {
      PersistedIsFound(base, tr, nodes, root, info, abs, found);
    }
  }

  /** An insertion, a crash at any point of it, and recovery: without a split the tree found is the old one or the new
      one; with a split, undoing the log gives the old one; and at the end it is the new one. */
  method InsertOrCrash(t: Tree, key: int, value: int) returns (splits: bool)
    requires t.Valid() && 0 <= key < TOP && key !in t.abs
    modifies t
    ensures t.Valid() && t.abs == old(t.abs)[key := value]
    ensures !splits ==> OldOrNew(old(t.nodes), t.trace, t.info, t.root, old(t.abs), t.abs)
    ensures splits ==> OldWhenUndone(old(t.nodes), t.trace, old(t.info), old(t.root), old(t.abs))
    ensures NewAtEnd(old(t.nodes), t.trace, t.nodes.Keys, t.info, t.root, t.abs)
  {
    hide *;
    ghost var nodes0, info0, root0, abs0 := t.nodes, t.info, t.root, t.abs;
    t.ValidFacts();
    TreeIs(nodes0, info0, root0, abs0);
    ghost var leaf, split;
    splits, leaf, split := t.Insert(key, value);
    t.ValidFacts();
    TreeIs(t.nodes, t.info, t.root, t.abs);
    if splits {
      forall k: nat, found | k <= |t.trace| && RecoveredFrom(nodes0, t.trace[..k], found)
        ensures IsTree(found, info0, root0, abs0)
      {
        CrashIsUndone(nodes0, root0, t.trace, k, found, info0, abs0);
        TreeIs(found, info0, root0, abs0);
      }
      OldWhenUndoneIs(nodes0, t.trace, info0, root0, abs0);
    } else {
      forall k: nat, found | k <= |t.trace| && FoundAfter(nodes0, t.trace[..k], nodes0.Keys, found)
        ensures IsTree(found, t.info, t.root, abs0) || IsTree(found, t.info, t.root, t.abs)
      {
        LeafCrash(nodes0, root0, t.trace, k, leaf, t.nodes[leaf], info0, abs0, t.abs, found);
      }
      OldOrNewIs(nodes0, t.trace, t.info, t.root, abs0, t.abs);
    }
    NewAtEndIs(nodes0, t.trace, t.nodes, t.root, t.info, t.abs);
  }

  /** The same for a deletion. */
  method DeleteOrCrash(t: Tree, key: int)
    requires t.Valid() && 0 <= key < TOP && key in t.abs
    modifies t
    ensures t.Valid() && t.abs == old(t.abs) - {key}
    ensures OldOrNew(old(t.nodes), t.trace, t.info, t.root, old(t.abs), t.abs)
    ensures NewAtEnd(old(t.nodes), t.trace, t.nodes.Keys, t.info, t.root, t.abs)
  {
    hide *;
    ghost var nodes0, info0, root0, abs0 := t.nodes, t.info, t.root, t.abs;
    t.ValidFacts();
    TreeIs(nodes0, info0, root0, abs0);
    ghost var leaf := t.Delete(key);
    t.ValidFacts();
    TreeIs(t.nodes, t.info, t.root, t.abs);
    forall k: nat, found | k <= |t.trace| && FoundAfter(nodes0, t.trace[..k], nodes0.Keys, found)
      ensures IsTree(found, t.info, t.root, abs0) || IsTree(found, t.info, t.root, t.abs)
    {
      LeafCrash(nodes0, root0, t.trace, k, leaf, t.nodes[leaf], info0, abs0, t.abs, found);
    }
    OldOrNewIs(nodes0, t.trace, t.info, t.root, abs0, t.abs);
    NewAtEndIs(nodes0, t.trace, t.nodes, t.root, t.info, t.abs);
  }

  /** The same for an update, of a bound key or of any other. */
  method UpdateOrCrash(t: Tree, key: int, value: int) returns (r: int)
    requires t.Valid() && 0 <= key < TOP
    modifies t
    ensures t.Valid() && t.abs == if key in old(t.abs) then old(t.abs)[key := value] else old(t.abs)
    ensures OldOrNew(old(t.nodes), t.trace, t.info, t.root, old(t.abs), t.abs)
    ensures NewAtEnd(old(t.nodes), t.trace, t.nodes.Keys, t.info, t.root, t.abs)
  {
    hide *;
    ghost var nodes0, info0, root0, abs0 := t.nodes, t.info, t.root, t.abs;
    t.ValidFacts();
    TreeIs(nodes0, info0, root0, abs0);
    ghost var leaf;
    r, leaf := t.Update(key, value);
    t.ValidFacts();
    TreeIs(t.nodes, t.info, t.root, t.abs);
    SizedParts(nodes0[leaf]);
    forall k: nat, found | k <= |t.trace| && FoundAfter(nodes0, t.trace[..k], nodes0.Keys, found)
      ensures IsTree(found, t.info, t.root, abs0) || IsTree(found, t.info, t.root, t.abs)
    {
      if key in abs0 || StaleAt(nodes0, leaf, key) {
        var i :| 0 <= i < 7 && nodes0[leaf].entries[i].key == key
            && t.nodes == nodes0[leaf := nodes0[leaf].(entries := nodes0[leaf].entries[i := Pair(key, value)])]
            && t.trace == [Store(TidAt(leaf, i), Word(value)), Event.Flush({TidAt(leaf, i)})];
        WordCrash(nodes0, root0, leaf, i, Pair(key, value), k, info0, abs0, t.abs, found);
      } else {
        assert t.trace[..k] == t.trace;
        NewAtEndIs(nodes0, t.trace, t.nodes, t.root, t.info, t.abs);
        FoundTree(nodes0, t.trace, t.nodes.Keys, t.info, t.root, t.abs, found);
      }
    }
    OldOrNewIs(nodes0, t.trace, t.info, t.root, abs0, t.abs);
    NewAtEndIs(nodes0, t.trace, t.nodes, t.root, t.info, t.abs);
  }

  lemma SizedParts(n: Node)
    requires Sized(n)
    ensures |n.entries| == 7
  {
  }

  lemma FoundTree(base: Nodes, tr: Trace, ps: set<Ptr>, info: Info, root: Ptr, abs: map<int, int>, found: Nodes)
    requires NewAtEnd(base, tr, ps, info, root, abs) && FoundAfter(base, tr, ps, found)
    ensures IsTree(found, info, root, abs)
  {
    hide FoundAfter, IsTree;
  }
}
