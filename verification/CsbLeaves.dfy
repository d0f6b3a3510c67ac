/** The contents of a CSB+-tree read off its leaf list, and a tree whose leaves have shrunk. */
module CsbLeaves {
  import opened SortedPairs
  import opened CsbShape
  import opened CsbCells
  import opened CsbGrowth
  import opened CsbLinks
  import opened CsbNodeSteps

  ghost predicate LeafOk(c: Cell) {
    c.LeafCell? && |c.entries| == MAX_ENTRIES && c.num <= MAX_ENTRIES
  }

  ghost function EntriesAt(mem: Memory, a: Ptr): seq<Pair> {
    if a in mem && LeafOk(mem[a]) then mem[a].entries[..mem[a].num] else []
  }

  /** The entries of the leaves in list order. */
  ghost function Gather(mem: Memory, leaves: seq<Ptr>): seq<Pair>
    decreases |leaves|
  {
    if leaves == [] then [] else EntriesAt(mem, leaves[0]) + Gather(mem, leaves[1..])
  }

  lemma {:induction false} GatherConcat(mem: Memory, a: seq<Ptr>, b: seq<Ptr>)
    ensures Gather(mem, a + b) == Gather(mem, a) + Gather(mem, b)
    decreases |a|
  {
    if a == [] {
      assert a + b == b;
    } else {
      assert (a + b)[0] == a[0] && (a + b)[1..] == a[1..] + b;
      GatherConcat(mem, a[1..], b);
    }
  }

  lemma GatherOne(mem: Memory, a: Ptr)
    ensures Gather(mem, [a]) == EntriesAt(mem, a)
  {
    hide EntriesAt;
    assert [a][1..] == [];
    assert Gather(mem, [a]) == EntriesAt(mem, a) + Gather(mem, [a][1..]);
  }

  lemma GatherAround(mem: Memory, a: seq<Ptr>, p: Ptr, b: seq<Ptr>)
    ensures Gather(mem, a + [p] + b) == Gather(mem, a) + EntriesAt(mem, p) + Gather(mem, b)
  {
    hide *;
    GatherConcat(mem, a + [p], b);
    GatherConcat(mem, a, [p]);
    GatherOne(mem, p);
  }

  lemma {:induction false} GatherFrame(mem: Memory, mem': Memory, leaves: seq<Ptr>)
    requires forall p :: p in leaves ==> EntriesAt(mem', p) == EntriesAt(mem, p)
    ensures Gather(mem', leaves) == Gather(mem, leaves)
    decreases |leaves|
  {
    if leaves != [] { GatherFrame(mem, mem', leaves[1..]); }
  }

  /** The leaf list holds exactly the contents of the tree, in order. */
  lemma {:induction false} ContentsAreGathered(mem: Memory, a: Ptr, t: Tree)
    requires a in mem && CellFor(mem[a], t) && Below(mem, t)
    ensures Gather(mem, LeavesOf(a, t)) == Contents(t)
    ensures forall p :: p in LeavesOf(a, t) ==> p in mem && LeafOk(mem[p])
    decreases t, 0
  {
    if t.Leaf? {
      assert LeavesOf(a, t) == [a];
      GatherOne(mem, a);
    } else {
      AllAreGathered(mem, Run(t.first, |t.kids|), t.kids);
    }
  }

  lemma {:induction false} AllAreGathered(mem: Memory, locs: seq<Ptr>, kids: seq<Tree>)
    requires StandAt(mem, locs, kids)
    ensures Gather(mem, LeavesAt(locs, kids)) == Flat(kids)
    ensures forall p :: p in LeavesAt(locs, kids) ==> p in mem && LeafOk(mem[p])
    decreases kids, 1
  {
    hide LeafOk, EntriesAt, CellFor, LeavesOf, Contents, Gather;
    if kids == [] {
      assert LeavesAt(locs, kids) == [];
      GatherNone(mem);
    } else {
      ContentsAreGathered(mem, locs[0], kids[0]);
      StandTail(mem, locs, kids);
      AllAreGathered(mem, locs[1..], kids[1..]);
      GatherConcat(mem, LeavesOf(locs[0], kids[0]), LeavesAt(locs[1..], kids[1..]));
    }
  }

  lemma GatherNone(mem: Memory)
    ensures Gather(mem, []) == []
  {
  }

  lemma StandTail(mem: Memory, locs: seq<Ptr>, kids: seq<Tree>)
    requires StandAt(mem, locs, kids) && kids != []
    ensures StandAt(mem, locs[1..], kids[1..])
  {
    hide CellFor, Below;
  }

  // ---------------------------------------------------------------- leaves that shrink in place

  /** The tree read again from memory. */
  ghost function Reread(mem: Memory, a: Ptr, t: Tree): Tree
    decreases t, 0
  {
    match t
    case Leaf(_) => Leaf(EntriesAt(mem, a))
    case Node(keys, first, kids) => Node(keys, first, RereadAll(mem, Run(first, |kids|), kids))
  }

  ghost function RereadAll(mem: Memory, locs: seq<Ptr>, kids: seq<Tree>): seq<Tree>
    requires |locs| == |kids|
    decreases kids, 1
  {
    seq(|kids|, j requires 0 <= j < |kids| => Reread(mem, locs[j], kids[j]))
  }

  /** Inner cells are as before; leaves hold fewer of their entries, still sorted. */
  ghost predicate Shrunk(mem: Memory, mem': Memory) {
    && (forall p :: p in mem ==> p in mem' && (mem[p].InnerCell? ==> mem'[p] == mem[p]))
    && (forall p :: p in mem && LeafOk(mem[p]) ==> LeafOk(mem'[p]))
    && (forall p :: p in mem && LeafOk(mem[p]) ==> LeafShrunk(EntriesAt(mem, p), EntriesAt(mem', p)))
  }

  ghost predicate LeafShrunk(es: seq<Pair>, es': seq<Pair>) {
    (forall x :: x in es' ==> x in es) && (Sorted(es) ==> Sorted(es'))
  }

  lemma {:induction false} RereadStands(mem: Memory, mem': Memory, a: Ptr, t: Tree)
    requires a in mem && CellFor(mem[a], t) && Below(mem, t) && Shrunk(mem, mem')
    ensures a in mem' && CellFor(mem'[a], Reread(mem', a, t)) && Below(mem', Reread(mem', a, t))
    ensures LeavesOf(a, Reread(mem', a, t)) == LeavesOf(a, t)
    ensures Under(Reread(mem', a, t)) == Under(t)
    ensures TreeApart(t) ==> TreeApart(Reread(mem', a, t))
    decreases t, 0
  {
    if t.Node? {
      var locs := Run(t.first, |t.kids|);
      AllRereadStand(mem, mem', locs, t.kids);
    }
  }

  lemma {:induction false} AllRereadStand(mem: Memory, mem': Memory, locs: seq<Ptr>, kids: seq<Tree>)
    requires StandAt(mem, locs, kids) && Shrunk(mem, mem')
    ensures StandAt(mem', locs, RereadAll(mem', locs, kids))
    ensures LeavesAt(locs, RereadAll(mem', locs, kids)) == LeavesAt(locs, kids)
    ensures Occupied(locs, RereadAll(mem', locs, kids)) == Occupied(locs, kids)
    ensures ApartAt(locs, kids) ==> ApartAt(locs, RereadAll(mem', locs, kids))
    decreases kids, 1
  {
    hide CellFor, Shrunk, Occupied, ApartAt, Under, TreeApart, Reread, LeavesOf;
    var kids' := RereadAll(mem', locs, kids);
    forall j | 0 <= j < |kids|
      ensures locs[j] in mem' && CellFor(mem'[locs[j]], kids'[j]) && Below(mem', kids'[j])
      ensures LeavesOf(locs[j], kids'[j]) == LeavesOf(locs[j], kids[j]) && Under(kids'[j]) == Under(kids[j])
      ensures TreeApart(kids[j]) ==> TreeApart(kids'[j])
    {
      RereadStands(mem, mem', locs[j], kids[j]);
    }
    SameLeaves(locs, kids, kids');
    SameApart(locs, kids, kids');
  }

  lemma {:induction false} SameLeaves(locs: seq<Ptr>, kids: seq<Tree>, kids': seq<Tree>)
    requires |locs| == |kids| == |kids'|
    requires forall j :: 0 <= j < |kids| ==> LeavesOf(locs[j], kids'[j]) == LeavesOf(locs[j], kids[j])
    ensures LeavesAt(locs, kids') == LeavesAt(locs, kids)
    decreases |kids|
  {
    hide LeavesOf;
    if kids != [] { SameLeaves(locs[1..], kids[1..], kids'[1..]); }
  }

  lemma SameApart(locs: seq<Ptr>, kids: seq<Tree>, kids': seq<Tree>)
    requires |locs| == |kids| == |kids'|
    requires forall j :: 0 <= j < |kids| ==>
      Under(kids'[j]) == Under(kids[j]) && (TreeApart(kids[j]) ==> TreeApart(kids'[j]))
    ensures Occupied(locs, kids') == Occupied(locs, kids)
    ensures ApartAt(locs, kids) ==> ApartAt(locs, kids')
  {
    hide Under, TreeApart, Occupied;
    forall j | 0 <= j < |kids|
      ensures Under(kids'[j]) <= Occupied(locs, kids) && Under(kids[j]) <= Occupied(locs, kids')
      ensures locs[j] in Occupied(locs, kids) && locs[j] in Occupied(locs, kids')
    {
      InOccupied(locs, kids, j);
      InOccupied(locs, kids', j);
    }
    OccupiedWithin(locs, kids, Occupied(locs, kids'));
    OccupiedWithin(locs, kids', Occupied(locs, kids));
  }

  lemma {:induction false} RereadWithin(mem: Memory, mem': Memory, a: Ptr, t: Tree, lo: int, hi: int, h: nat)
    requires a in mem && CellFor(mem[a], t) && Below(mem, t) && Shrunk(mem, mem') && Within(t, lo, hi, h)
    ensures Within(Reread(mem', a, t), lo, hi, h)
    decreases t
  {
    if t.Leaf? {
      LeafStillWithin(t.es, EntriesAt(mem', a), lo, hi);
    } else {
      hide CellFor, Shrunk, SortedKeys;
      var locs := Run(t.first, |t.kids|);
      var kids' := RereadAll(mem', locs, t.kids);
      forall j | 0 <= j < |t.kids|
        ensures Within(kids'[j], LoOf(t.keys, lo, j), HiOf(t.keys, hi, j), h - 1)
      {
        RereadWithin(mem, mem', locs[j], t.kids[j], LoOf(t.keys, lo, j), HiOf(t.keys, hi, j), h - 1);
      }
    }
  }

  lemma LeafStillWithin(es: seq<Pair>, es': seq<Pair>, lo: int, hi: int)
    requires LeafShrunk(es, es') && Within(Leaf(es), lo, hi, 0) && |es'| <= MAX_ENTRIES
    ensures Within(Leaf(es'), lo, hi, 0)
  {
    forall i | 0 <= i < |es'| ensures lo <= es'[i].key <= hi {
      assert es'[i] in es;
    }
  }

  /** Routing still reaches the leaves it reached, for keys whose entries stayed. */
  lemma {:induction false} RereadReaches(mem: Memory, mem': Memory, a: Ptr, t: Tree, key: int)
    requires a in mem && CellFor(mem[a], t) && Below(mem, t)
    requires forall p ::
      p in mem && LeafOk(mem[p]) ==> (HasKey(EntriesAt(mem', p), key) <==> HasKey(EntriesAt(mem, p), key))
    ensures Reaches(Reread(mem', a, t), key) <==> Reaches(t, key)
    decreases t
  {
    if t.Leaf? {
      assert LeafOk(mem[a]) && EntriesAt(mem, a) == t.es;
    } else {
      hide HasKey, EntriesAt, LeafOk;
      var l := KeyIndex(t.keys, key);
      var locs := Run(t.first, |t.kids|);
      if l < |t.kids| {
        RereadReaches(mem, mem', locs[l], t.kids[l], key);
        var kids' := RereadAll(mem', locs, t.kids);
        assert kids'[l] == Reread(mem', locs[l], t.kids[l]);
        RouteIs(t, key);
        RouteIs(Node(t.keys, t.first, kids'), key);
      }
    }
  }

  /** The leaf that a key is routed to. */
  ghost function LeafAt(a: Ptr, t: Tree, key: int): Ptr
    decreases t
  {
    if t.Node? && KeyIndex(t.keys, key) < |t.kids|
    then LeafAt(Slot(t.first, KeyIndex(t.keys, key)), t.kids[KeyIndex(t.keys, key)], key)
    else a
  }

  lemma LeafAtKid(a: Ptr, t: Tree, key: int)
    ensures t.Leaf? ==> LeafAt(a, t, key) == a
    ensures t.Node? && KeyIndex(t.keys, key) < |t.kids| ==>
      LeafAt(a, t, key) == LeafAt(Slot(t.first, KeyIndex(t.keys, key)), t.kids[KeyIndex(t.keys, key)], key)
  {
  }

  /** The same leaf is reached, whatever its entries became. */
  lemma {:induction false} RereadLeaf(mem: Memory, mem': Memory, a: Ptr, t: Tree, key: int)
    requires a in mem && CellFor(mem[a], t) && Below(mem, t)
    ensures LeafFor(t, key) == EntriesAt(mem, LeafAt(a, t, key))
    ensures LeafFor(Reread(mem', a, t), key) == EntriesAt(mem', LeafAt(a, t, key))
    decreases t
  {
    if t.Leaf? {
      assert LeafOk(mem[a]) && EntriesAt(mem, a) == t.es;
    } else {
      hide EntriesAt, LeafOk, KeyIndex;
      var l := KeyIndex(t.keys, key);
      var locs := Run(t.first, |t.kids|);
      RereadLeaf(mem, mem', locs[l], t.kids[l], key);
      var kids' := RereadAll(mem', locs, t.kids);
      assert kids'[l] == Reread(mem', locs[l], t.kids[l]);
      RouteIs(t, key);
      RouteIs(Node(t.keys, t.first, kids'), key);
    }
  }

  lemma RouteIs(t: Tree, key: int)
    requires t.Node? && KeyIndex(t.keys, key) < |t.kids|
    ensures LeafFor(t, key) == LeafFor(t.kids[KeyIndex(t.keys, key)], key)
  {
    hide KeyIndex;
    assert LeafFor(t, key) == RouteTo(t.keys, t.kids, key);
  }

  // ---------------------------------------------------------------- going down

  /** Leaves left of kid l hold smaller keys, leaves right of it do not. */
  lemma LeavesRouted(mem: Memory, t: Tree, lo: int, hi: int, h: nat, key: int)
    requires t.Node? && Within(t, lo, hi, h) && Below(mem, t)
    ensures var l := KeyIndex(t.keys, key); var locs := Run(t.first, |t.kids|);
      && l < |t.kids|
      && LeavesAt(locs, t.kids) == LeavesAt(locs[..l], t.kids[..l]) + LeavesOf(locs[l], t.kids[l])
         + LeavesAt(locs[l + 1..], t.kids[l + 1..])
      && AllBelow(Gather(mem, LeavesAt(locs[..l], t.kids[..l])), key)
      && AllFrom(Gather(mem, LeavesAt(locs[l + 1..], t.kids[l + 1..])), key)
  {
    hide Gather, LeavesAt, LeavesOf, Flat, Contents, Branches, CellFor, KeyIndex;
    var l := KeyIndex(t.keys, key);
    var locs := Run(t.first, |t.kids|);
    RouteCut(t.keys, t.kids, lo, hi, h - 1, key);
    LeavesAround(locs, t.kids, l);
    StandParts(mem, locs, t.kids, l);
    AllAreGathered(mem, locs[..l], t.kids[..l]);
    AllAreGathered(mem, locs[l + 1..], t.kids[l + 1..]);
  }

  lemma StandParts(mem: Memory, locs: seq<Ptr>, kids: seq<Tree>, l: nat)
    requires StandAt(mem, locs, kids) && l < |kids|
    ensures StandAt(mem, locs[..l], kids[..l]) && StandAt(mem, locs[l + 1..], kids[l + 1..])
  {
    hide CellFor, Below;
  }

  /** One step of a descent: the kid the key is routed to, and the leaves on both sides. */
  lemma DescendStep(mem: Memory, node: Ptr, t: Tree, lo: int, hi: int, h: nat, key: int, pre: seq<Ptr>, post: seq<Ptr>)
      returns (pre': seq<Ptr>, post': seq<Ptr>)
    requires node in mem && mem[node].InnerCell? && CellFor(mem[node], t) && Below(mem, t) && Within(t, lo, hi, h)
    requires AllBelow(Gather(mem, pre), key) && AllFrom(Gather(mem, post), key)
    ensures t.Node? && h > 0
    ensures var c := mem[node]; |c.keys| == 14 && c.num <= 14 && c.keys[..c.num] == t.keys && c.first == t.first
    ensures forall i, j :: 0 <= i <= j < mem[node].num ==> mem[node].keys[i] <= mem[node].keys[j]
    ensures var l := KeyIndex(t.keys, key); var kid := Slot(t.first, l);
      && l < |t.kids| && l <= |t.keys| && kid in mem && CellFor(mem[kid], t.kids[l]) && Below(mem, t.kids[l])
      && Within(t.kids[l], LoOf(t.keys, lo, l), HiOf(t.keys, hi, l), h - 1)
      && LeafFor(t, key) == LeafFor(t.kids[l], key)
      && pre + LeavesOf(node, t) + post == pre' + LeavesOf(kid, t.kids[l]) + post'
    ensures AllBelow(Gather(mem, pre'), key) && AllFrom(Gather(mem, post'), key)
  {
    hide Gather, LeavesAt, LeafFor, KeyIndex, Within, LeavesOf, Below;
    InnerHeight(t, lo, hi, h);
    InnerCellFacts(mem[node], t, lo, hi);
    WithinNode(t, lo, hi, h);
    BranchesParts(t.keys, t.kids, lo, hi, h - 1);
    LeavesRouted(mem, t, lo, hi, h, key);
    RouteIs(t, key);
    LeavesOfNode(node, t);
    var l := KeyIndex(t.keys, key);
    var locs := Run(t.first, |t.kids|);
    BelowAt(mem, t, l);
    var left, right := LeavesAt(locs[..l], t.kids[..l]), LeavesAt(locs[l + 1..], t.kids[l + 1..]);
    pre', post' := pre + left, right + post;
    GatherConcat(mem, pre, left);
    GatherConcat(mem, right, post);
    Sandwich(pre, left, LeavesOf(locs[l], t.kids[l]), right, post);
  }

  lemma InnerHeight(t: Tree, lo: int, hi: int, h: nat)
    requires t.Node? && Within(t, lo, hi, h)
    ensures h > 0
  {
  }

  lemma BelowAt(mem: Memory, t: Tree, l: nat)
    requires t.Node? && Below(mem, t) && l < |t.kids|
    ensures var kid := Slot(t.first, l); kid in mem && CellFor(mem[kid], t.kids[l]) && Below(mem, t.kids[l])
  {
    hide CellFor;
    assert Run(t.first, |t.kids|)[l] == Slot(t.first, l);
  }

  /** A leaf reached by a descent. */
  lemma LeafReached(mem: Memory, node: Ptr, t: Tree, lo: int, hi: int, h: nat, key: int)
    requires node in mem && mem[node].LeafCell? && CellFor(mem[node], t) && Within(t, lo, hi, h)
    ensures t.Leaf? && LeavesOf(node, t) == [node] && LeafOk(mem[node]) && EntriesAt(mem, node) == LeafFor(t, key)
      && Sorted(EntriesAt(mem, node))
  {
  }

  // ---------------------------------------------------------------- an entry leaves a leaf

  lemma ShrunkByOne(mem: Memory, p: Ptr, l: nat, entries: seq<Pair>)
    requires p in mem && LeafOk(mem[p]) && l < mem[p].num && |entries| == MAX_ENTRIES
    requires entries[..mem[p].num - 1] == mem[p].entries[..l] + mem[p].entries[l + 1..mem[p].num]
    ensures var mem' := mem[p := LeafCell(mem[p].num - 1, entries)];
      Shrunk(mem, mem') && EntriesAt(mem', p) == EntriesAt(mem, p)[..l] + EntriesAt(mem, p)[l + 1..]
      && forall q :: q != p ==> EntriesAt(mem', q) == EntriesAt(mem, q)
  {
    var c' := LeafCell(mem[p].num - 1, entries);
    var mem' := mem[p := c'];
    var es := EntriesAt(mem, p);
    assert EntriesAt(mem', p) == es[..l] + es[l + 1..];
    SeqShrunk(es, l);
    forall q ensures q != p ==> EntriesAt(mem', q) == EntriesAt(mem, q) {}
    hide EntriesAt, LeafShrunk;
    forall q | q in mem && LeafOk(mem[q]) ensures LeafShrunk(EntriesAt(mem, q), EntriesAt(mem', q)) {
      if q != p { SeqSame(EntriesAt(mem, q)); }
    }
  }

  lemma SeqShrunk(es: seq<Pair>, l: nat)
    requires l < |es|
    ensures LeafShrunk(es, es[..l] + es[l + 1..])
  {
    var es' := es[..l] + es[l + 1..];
    forall i | 0 <= i < |es'| ensures es'[i] in es {
      assert es'[i] == if i < l then es[i] else es[i + 1];
    }
  }

  lemma SeqSame(es: seq<Pair>)
    ensures LeafShrunk(es, es)
  {
  }

  /** The contents lose one entry. */
  lemma GatherShrunk(mem: Memory, mem': Memory, a: seq<Ptr>, p: Ptr, b: seq<Ptr>, l: nat)
    requires Distinct(a + [p] + b) && l < |EntriesAt(mem, p)|
    requires EntriesAt(mem', p) == EntriesAt(mem, p)[..l] + EntriesAt(mem, p)[l + 1..]
    requires forall q :: q != p ==> EntriesAt(mem', q) == EntriesAt(mem, q)
    requires EntriesAt(mem, p)[l] !in Gather(mem, a) + EntriesAt(mem, p)[..l]
    ensures Gather(mem', a + [p] + b) == DropPair(Gather(mem, a + [p] + b), EntriesAt(mem, p)[l])
  {
    hide Gather, EntriesAt, DropPair;
    DistinctParts(a, [p], b);
    hide Distinct;
    assert p in [p];
    GatherFrame(mem, mem', a);
    GatherFrame(mem, mem', b);
    GatherAround(mem, a, p, b);
    GatherAround(mem', a, p, b);
    var es := EntriesAt(mem, p);
    var seen := Gather(mem, a) + es[..l];
    DropPairFound(seen, es[l], es[l + 1..] + Gather(mem, b));
    CutHere(Gather(mem, a), es, l, Gather(mem, b));
  }

  lemma CutHere(a: seq<Pair>, es: seq<Pair>, l: nat, b: seq<Pair>)
    requires l < |es|
    ensures a + es + b == (a + es[..l]) + [es[l]] + (es[l + 1..] + b)
    ensures a + (es[..l] + es[l + 1..]) + b == (a + es[..l]) + (es[l + 1..] + b)
  {
  }

  /** Only entries with the key of the one removed become fewer. */
  lemma ShrunkKeepsKeys(es: seq<Pair>, l: nat, key: int)
    requires l < |es| && es[l].key != key
    ensures HasKey(es[..l] + es[l + 1..], key) <==> HasKey(es, key)
  {
    var es' := es[..l] + es[l + 1..];
    assert forall i :: 0 <= i < l ==> es[i] == es'[i];
    assert forall i :: l < i < |es| ==> es[i] == es'[i - 1];
    assert forall i :: 0 <= i < |es'| ==> es'[i] == if i < l then es[i] else es[i + 1];
  }

  // ---------------------------------------------------------------- walking along equal keys

  lemma GatherEmpty(mem: Memory, key: int)
    ensures AllBelow(Gather(mem, []), key) && AllFrom(Gather(mem, []), key)
  {
  }

  lemma EntriesAtIs(mem: Memory, p: Ptr)
    requires p in mem && LeafOk(mem[p])
    ensures var c := mem[p]; c.LeafCell? && |c.entries| == 6 && c.num <= 6 && EntriesAt(mem, p) == c.entries[..c.num]
    ensures |EntriesAt(mem, p)| == mem[p].num
    ensures forall i :: 0 <= i < mem[p].num ==> EntriesAt(mem, p)[i] == mem[p].entries[i]
  {
  }

  lemma FindIs(a: seq<Pair>, key: int)
    ensures var l := LowerBound(a, key); Find(a, key) == if l < |a| && a[l].key == key then a[l].tid else 0
  {
  }

  /** The entry is in none of the leaves before `node`, nor among the first l entries of it, and
      nothing after has a smaller key. */
  ghost predicate Walked(mem: Memory, pre: seq<Ptr>, node: Ptr, post: seq<Ptr>, e: Pair, l: nat) {
    && l <= |EntriesAt(mem, node)|
    && e !in Gather(mem, pre) + EntriesAt(mem, node)[..l]
    && AllFrom(EntriesAt(mem, node)[l..] + Gather(mem, post), e.key)
  }

  lemma StartWalk(mem: Memory, pre: seq<Ptr>, node: Ptr, post: seq<Ptr>, e: Pair)
    requires AllBelow(Gather(mem, pre), e.key) && AllFrom(Gather(mem, post), e.key) && Sorted(EntriesAt(mem, node))
    ensures Walked(mem, pre, node, post, e, LowerBound(EntriesAt(mem, node), e.key))
  {
    hide Gather, EntriesAt, LowerBound;
    var es := EntriesAt(mem, node);
    var l := LowerBound(es, e.key);
    forall i | l <= i < |es| ensures e.key <= es[i].key {
      assert es[l].key <= es[i].key;
    }
  }

  /** All entries, cut where the walk is. */
  lemma ContentsHere(mem: Memory, pre: seq<Ptr>, node: Ptr, post: seq<Ptr>, l: nat, root: Ptr, tree: Tree)
    requires root in mem && CellFor(mem[root], tree) && Below(mem, tree)
    requires LeavesOf(root, tree) == pre + [node] + post && l <= |EntriesAt(mem, node)|
    ensures Contents(tree) == (Gather(mem, pre) + EntriesAt(mem, node)[..l])
      + (EntriesAt(mem, node)[l..] + Gather(mem, post))
  {
    hide *;
    ContentsAreGathered(mem, root, tree);
    GatherAround(mem, pre, node, post);
    var es := EntriesAt(mem, node);
    assert es == es[..l] + es[l..];
  }

  /** An entry with a larger key ends the walk. */
  lemma WalkedHere(mem: Memory, pre: seq<Ptr>, node: Ptr, post: seq<Ptr>, e: Pair, l: nat, root: Ptr, tree: Tree)
    requires root in mem && CellFor(mem[root], tree) && Below(mem, tree) && Sorted(Contents(tree))
    requires LeavesOf(root, tree) == pre + [node] + post && l < |EntriesAt(mem, node)|
      && Walked(mem, pre, node, post, e, l)
    ensures EntriesAt(mem, node)[l].key != e.key ==> e !in Contents(tree)
  {
    hide Gather, EntriesAt, Contents, LeavesOf, CellFor, Below, Sorted;
    ContentsHere(mem, pre, node, post, l, root, tree);
    var rest := EntriesAt(mem, node)[l..] + Gather(mem, post);
    assert rest[0] == EntriesAt(mem, node)[l];
    if EntriesAt(mem, node)[l].key != e.key {
      AbsentFrom(Gather(mem, pre) + EntriesAt(mem, node)[..l], rest, e);
    }
  }

  lemma WalkOn(mem: Memory, pre: seq<Ptr>, node: Ptr, post: seq<Ptr>, e: Pair, l: nat)
    requires l < |EntriesAt(mem, node)| && Walked(mem, pre, node, post, e, l) && EntriesAt(mem, node)[l] != e
    ensures Walked(mem, pre, node, post, e, l + 1)
  {
    hide Gather, EntriesAt;
    var es, after := EntriesAt(mem, node), Gather(mem, post);
    assert es[..l + 1] == es[..l] + [es[l]];
    var rest, rest' := es[l..] + after, es[l + 1..] + after;
    assert forall i :: 0 <= i < |rest'| ==> rest'[i] == rest[i + 1];
  }

  lemma EndOfWalk(mem: Memory, root: Ptr, tree: Tree, pre: seq<Ptr>, node: Ptr, post: seq<Ptr>, e: Pair)
    requires root in mem && CellFor(mem[root], tree) && Below(mem, tree)
    requires LeavesOf(root, tree) == pre + [node] + post && Walked(mem, pre, node, post, e, |EntriesAt(mem, node)|)
    ensures post == [] ==> e !in Contents(tree)
    ensures post != [] ==> Walked(mem, pre + [node], post[0], post[1..], e, 0)
                           && pre + [node] + post == (pre + [node]) + [post[0]] + post[1..]
  {
    hide EntriesAt, Contents, LeavesOf, CellFor, Below, Gather;
    var es := EntriesAt(mem, node);
    ContentsHere(mem, pre, node, post, |es|, root, tree);
    assert es[..|es|] == es && es[|es|..] == [];
    GatherConcat(mem, pre, [node]);
    GatherOne(mem, node);
    if post == [] {
      GatherNone(mem);
    } else {
      assert post == [post[0]] + post[1..];
      GatherConcat(mem, [post[0]], post[1..]);
      GatherOne(mem, post[0]);
      WalkedNext(mem, pre, node, post, e);
    }
  }

  lemma WalkedNext(mem: Memory, pre: seq<Ptr>, node: Ptr, post: seq<Ptr>, e: Pair)
    requires post != [] && Walked(mem, pre, node, post, e, |EntriesAt(mem, node)|)
    requires Gather(mem, pre + [node]) == Gather(mem, pre) + EntriesAt(mem, node)
    requires Gather(mem, post) == EntriesAt(mem, post[0]) + Gather(mem, post[1..])
    ensures Walked(mem, pre + [node], post[0], post[1..], e, 0)
  {
    hide Gather, EntriesAt;
    var es, es' := EntriesAt(mem, node), EntriesAt(mem, post[0]);
    assert es[..|es|] == es && es[|es|..] + Gather(mem, post) == Gather(mem, post);
    assert Gather(mem, pre + [node]) + es'[..0] == Gather(mem, pre) + es;
    assert es'[0..] == es';
  }

  /** The next leaf of the list. */
  lemma NextLeaf(next: Links, prev: Links, pre: seq<Ptr>, node: Ptr, post: seq<Ptr>)
    requires Linked(next, prev, pre + [node] + post)
    ensures node != NULL && node in next && next[node] == if post == [] then NULL else post[0]
    ensures post != [] ==> post[0] != NULL
  {
    var all := pre + [node] + post;
    assert all[|pre|] == node;
    assert post != [] ==> all[|pre| + 1] == post[0];
  }

  /** The walk started at the leaf the key is routed to: that leaf loses the first entry e it has. */
  lemma RoutedLeafDrops(mem: Memory, mem': Memory, pre: seq<Ptr>, node: Ptr, post: seq<Ptr>, e: Pair, l: nat, root: Ptr,
                        tree: Tree)
    requires root in mem && CellFor(mem[root], tree) && Below(mem, tree)
    requires l < |EntriesAt(mem, node)| && EntriesAt(mem, node)[l] == e && Walked(mem, pre, node, post, e, l)
    requires LeafAt(root, tree, e.key) == node || LeafAt(root, tree, e.key) in pre
    requires EntriesAt(mem', node) == EntriesAt(mem, node)[..l] + EntriesAt(mem, node)[l + 1..]
    requires forall q :: q != node ==> EntriesAt(mem', q) == EntriesAt(mem, q)
    ensures LeafFor(Reread(mem', root, tree), e.key) == DropPair(LeafFor(tree, e.key), e)
  {
    hide EntriesAt, Gather, LeafFor, Reread, LeafAt, DropPair, Below, CellFor;
    RereadLeaf(mem, mem', root, tree, e.key);
    var start, es := LeafAt(root, tree, e.key), EntriesAt(mem, node);
    if start == node {
      assert e !in es[..l];
      assert es == es[..l] + [e] + es[l + 1..];
      DropPairFound(es[..l], e, es[l + 1..]);
    } else {
      GatheredFrom(mem, pre, start, e);
      DropPairAbsent(EntriesAt(mem, start), e);
    }
  }

  lemma GatheredFrom(mem: Memory, leaves: seq<Ptr>, p: Ptr, e: Pair)
    requires p in leaves && e !in Gather(mem, leaves)
    ensures e !in EntriesAt(mem, p)
  {
    hide EntriesAt, Gather;
    var i :| 0 <= i < |leaves| && leaves[i] == p;
    assert leaves == leaves[..i] + [p] + leaves[i + 1..];
    GatherAround(mem, leaves[..i], p, leaves[i + 1..]);
  }

  /** An entry that is not stored is not in the leaf its key is routed to. */
  lemma RoutedLeafLacks(tree: Tree, lo: int, hi: int, h: nat, e: Pair)
    requires Within(tree, lo, hi, h) && e !in Contents(tree)
    ensures DropPair(LeafFor(tree, e.key), e) == LeafFor(tree, e.key)
  {
    hide Contents, LeafFor, DropPair, Within;
    var before, after := LeafCut(tree, lo, hi, h, e.key);
    DropPairAbsent(LeafFor(tree, e.key), e);
  }

  lemma SortedContents(t: Tree, lo: int, hi: int, h: nat)
    requires Within(t, lo, hi, h)
    ensures Sorted(Contents(t))
  {
    ContentsSorted(t, lo, hi, h);
  }

  lemma LeafInList(mem: Memory, pre: seq<Ptr>, node: Ptr, post: seq<Ptr>, root: Ptr, tree: Tree)
    requires root in mem && CellFor(mem[root], tree) && Below(mem, tree) && LeavesOf(root, tree) == pre + [node] + post
    ensures node in mem && LeafOk(mem[node])
  {
    hide CellFor, Below, LeavesOf, LeafOk;
    ContentsAreGathered(mem, root, tree);
    assert node in pre + [node] + post;
  }
}
