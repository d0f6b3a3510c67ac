/** What an insertion did to a node group, and why memory still holds the tree afterwards. */
module CsbSteps {
  import opened SortedPairs
  import opened CsbShape
  import opened CsbGrowth
  import opened CsbCells
  import opened CsbLinks

  /** The node inserted into stays one node, or becomes two around a separator. */
  datatype Outcome = Stays(x: Tree) | Splits(x: Tree, s: int, y: Tree)

  ghost function KidsAfter(kids: seq<Tree>, i: nat, o: Outcome): seq<Tree>
    requires i < |kids|
  {
    match o case Stays(x) => kids[i := x] case Splits(x, _, y) => Spliced(kids, i, [x, y])
  }

  ghost function LocsAfter(first: Ptr, newGroup: Ptr, n: nat, o: Outcome): seq<Ptr>
    requires n <= 15
  {
    match o case Stays(_) => Run(first, n) case Splits(_, _, _) => Places(first, newGroup, n)
  }

  ghost predicate Correct(t: Tree, o: Outcome, e: Pair, lo: int, hi: int, h: nat) {
    match o
    case Stays(x) => Grew(t, x, e, lo, hi, h)
    case Splits(x, s, y) => Parted(t, x, s, y, e, lo, hi, h)
  }

  /** Memory kept its cells and their values except at some addresses. */
  ghost predicate Kept(mem: Memory, mem': Memory, but: set<Ptr>) {
    forall p :: p in mem ==> p in mem' && (p !in but ==> mem'[p] == mem[p])
  }

  ghost predicate BelowBrk(mem: Memory, brk: Ptr) {
    forall p :: p in mem ==> p < brk
  }

  // ---------------------------------------------------------------- the node stays

  lemma LeafStays(mem: Memory, mem': Memory, locs: seq<Ptr>, kids: seq<Tree>, i: nat, es: seq<Pair>, c: Cell)
    requires Holds(mem, locs, kids) && i < |kids| && CellFor(c, Leaf(es))
    requires mem' == mem[locs[i] := c]
    ensures Holds(mem', locs, kids[i := Leaf(es)])
    ensures Occupied(locs, kids[i := Leaf(es)]) <= Occupied(locs, kids)
    ensures Kept(mem, mem', Occupied(locs, kids))
  {
    hide CellFor, StandAt, ApartAt, Occupied, Under, Below, TreeApart, Holds;
    HoldsParts(mem, locs, kids, i);
    LeafHolds(mem', es);
    KidChanged(mem, mem', locs, kids, i, Leaf(es), {});
    InOccupied(locs, kids, i);
  }

  /** mem: before the insertion; mem1: after it changed the kids below node i. */
  lemma NodeStays(mem: Memory, mem1: Memory, mem2: Memory, locs: seq<Ptr>, kids: seq<Tree>, i: nat, x: Tree, c: Cell,
                  brk: Ptr, brk1: Ptr)
    requires Holds(mem, locs, kids) && i < |kids| && BelowBrk(mem, brk)
    requires Kept(mem, mem1, Under(kids[i]))
    requires x.Node? && Holds(mem1, Run(x.first, |x.kids|), x.kids)
    requires Occupied(Run(x.first, |x.kids|), x.kids) <= Under(kids[i]) + Between(brk, brk1)
    requires CellFor(c, x) && mem2 == mem1[locs[i] := c]
    ensures Holds(mem2, locs, kids[i := x])
    ensures Occupied(locs, kids[i := x]) <= Occupied(locs, kids) + Between(brk, brk1)
    ensures Kept(mem, mem2, Occupied(locs, kids))
  {
    hide CellFor, StandAt, ApartAt, Occupied, Under, Below, TreeApart, Holds;
    HoldsParts(mem, locs, kids, i);
    NodeHolds(mem1, x);
    assert locs[i] !in Under(x);
    BelowFrame(mem1, mem2, x);
    KidChanged(mem, mem2, locs, kids, i, x, Between(brk, brk1));
    InOccupied(locs, kids, i);
  }

  // ---------------------------------------------------------------- the node splits

  lemma PlacesAreNew(first: Ptr, newGroup: Ptr, n: nat, used: set<Ptr>)
    requires 0 < n <= 15 && newGroup != NULL && first != NULL
    requires forall p :: p in used ==> p < newGroup
    requires forall j :: 0 <= j < n ==> Slot(first, j) in used
    ensures NewPlaces(Run(first, n), Places(first, newGroup, n), used)
  {
    var locs, locs' := Run(first, n), Places(first, newGroup, n);
    assert n == 15 ==> Slot(first, 14) in used;
    forall j | 0 <= j < |locs'|
      ensures locs'[j] != NULL && (locs'[j] in locs || locs'[j] !in used)
    {
      assert locs'[j] == PlaceAt(first, newGroup, n, j);
      if n == 15 && j < 8 { assert locs[j] == locs'[j]; }
    }
    forall j, k | 0 <= j < k < |locs'|
      ensures locs'[j] != locs'[k]
    {
      assert locs'[j] == PlaceAt(first, newGroup, n, j) && locs'[k] == PlaceAt(first, newGroup, n, k);
      if n == 15 && j < 8 { assert Slot(first, j) in used; }
    }
  }

  /** Nodes i and i + 1 of the new group and those around them. */
  ghost predicate GroupMoved(mem: Memory, mem': Memory, locs: seq<Ptr>, locs': seq<Ptr>, i: nat, cx: Cell, cy: Cell)
    requires |locs'| == |locs| + 1 && i < |locs|
  {
    && (forall j :: 0 <= j < |locs| ==> locs[j] in mem)
    && (forall j :: 0 <= j < |locs'| ==> locs'[j] in mem')
    && mem'[locs'[i]] == cx && mem'[locs'[i + 1]] == cy
    && (forall j :: 0 <= j < |locs'| && j != i && j != i + 1 ==> mem'[locs'[j]] == mem[locs[Source(i, j)]])
    && Kept(mem, mem', Elems(locs))
  }

  lemma LeafSplits(mem: Memory, mem': Memory, locs: seq<Ptr>, locs': seq<Ptr>, kids: seq<Tree>, i: nat, xs: seq<Pair>,
                   ys: seq<Pair>, cx: Cell, cy: Cell)
    requires Holds(mem, locs, kids) && i < |kids| && |locs| == |kids| && CellFor(cx, Leaf(xs)) && CellFor(cy, Leaf(ys))
    requires NewPlaces(locs, locs', mem.Keys) && |locs'| == |locs| + 1
    requires GroupMoved(mem, mem', locs, locs', i, cx, cy)
    ensures Holds(mem', locs', Spliced(kids, i, [Leaf(xs), Leaf(ys)]))
    ensures Occupied(locs', Spliced(kids, i, [Leaf(xs), Leaf(ys)])) <= Occupied(locs, kids) + Elems(locs')
    ensures Kept(mem, mem', Occupied(locs, kids))
  {
    hide CellFor, StandAt, ApartAt, Occupied, Under, Below, TreeApart, Holds, NewPlaces;
    LeafHolds(mem', xs);
    LeafHolds(mem', ys);
    KidSplit(mem, mem', locs, locs', kids, i, Leaf(xs), Leaf(ys), {}, mem.Keys);
    LocsOccupied(locs, kids);
  }

  lemma LocsOccupied(locs: seq<Ptr>, kids: seq<Tree>)
    ensures Elems(locs) <= Occupied(locs, kids)
  {
  }

  lemma NodeSplits(mem: Memory, mem1: Memory, mem2: Memory, locs: seq<Ptr>, locs': seq<Ptr>, kids: seq<Tree>, i: nat,
                   x: Tree, y: Tree, cx: Cell, cy: Cell, brk: Ptr, brk1: Ptr)
    requires Holds(mem, locs, kids) && i < |kids| && |locs| == |kids| && BelowBrk(mem, brk) && BelowBrk(mem1, brk1)
      && brk <= brk1
    requires Kept(mem, mem1, Under(kids[i]))
    requires x.Node? && Holds(mem1, Run(x.first, |x.kids|), x.kids)
    requires y.Node? && Holds(mem1, Run(y.first, |y.kids|), y.kids)
    requires Occupied(Run(x.first, |x.kids|), x.kids) !! Occupied(Run(y.first, |y.kids|), y.kids)
    requires Occupied(Run(x.first, |x.kids|), x.kids) + Occupied(Run(y.first, |y.kids|), y.kids)
      <= Under(kids[i]) + Between(brk, brk1)
    requires NewPlaces(locs, locs', Between(0, brk1)) && |locs'| == |locs| + 1
    requires CellFor(cx, x) && CellFor(cy, y) && GroupMoved(mem1, mem2, locs, locs', i, cx, cy)
    ensures Holds(mem2, locs', Spliced(kids, i, [x, y]))
    ensures Occupied(locs', Spliced(kids, i, [x, y])) <= Occupied(locs, kids) + Between(brk, brk1) + Elems(locs')
    ensures Kept(mem, mem2, Occupied(locs, kids))
  {
    hide CellFor, StandAt, ApartAt, Occupied, Under, Below, TreeApart, Holds, NewPlaces;
    LocsBeside(mem, locs, kids, i);
    NodeHolds(mem1, x);
    NodeHolds(mem1, y);
    BelowFrame(mem1, mem2, x);
    BelowFrame(mem1, mem2, y);
    forall j | 0 <= j < |locs'| && j != i && j != i + 1
      ensures locs'[j] in mem2 && mem2[locs'[j]] == mem[locs[Source(i, j)]]
    {
      SourceOther(i, j, |kids|);
    }
    KidSplit(mem, mem2, locs, locs', kids, i, x, y, Between(brk, brk1), Between(0, brk1));
    LocsOccupied(locs, kids);
    InOccupied(locs, kids, i);
  }

  lemma LocsBeside(mem: Memory, locs: seq<Ptr>, kids: seq<Tree>, i: nat)
    requires Holds(mem, locs, kids) && i < |kids|
    ensures |locs| == |kids| && forall j :: 0 <= j < |locs| ==> locs[j] in mem && locs[j] !in Under(kids[i])
  {
  }

  // ---------------------------------------------------------------- leaves after a change below inner nodes

  /** The leaves under kid i are replaced by other ones; the group may move. */
  lemma LeavesReplaced(locs: seq<Ptr>, locs': seq<Ptr>, kids: seq<Tree>, i: nat, m: seq<Tree>, mids: seq<Ptr>)
    requires |locs| == |kids| && i < |kids| && |mids| == |m| && forall j :: 0 <= j < |kids| ==> kids[j].Node?
    requires |m| == 1 || |m| == 2
    requires forall j :: 0 <= j < |m| ==> m[j].Node?
    requires |locs'| == |kids| + |m| - 1
    ensures LeavesAt(locs', Spliced(kids, i, m)) ==
      LeavesAt(locs[..i], kids[..i]) + LeavesAt(mids, m) + LeavesAt(locs[i + 1..], kids[i + 1..])
  {
    hide *;
    var l2 := locs[..i] + mids + locs[i + 1..];
    SplicedIs(kids, i, m);
    SplicedNodes(kids, i, m);
    LeavesMoved(locs', l2, Spliced(kids, i, m));
    LeavesConcat(locs[..i] + mids, kids[..i] + m, locs[i + 1..], kids[i + 1..]);
    LeavesConcat(locs[..i], kids[..i], mids, m);
  }

  lemma SplicedNodes(kids: seq<Tree>, i: nat, m: seq<Tree>)
    requires i < |kids| && forall j :: 0 <= j < |kids| ==> kids[j].Node?
    requires forall j :: 0 <= j < |m| ==> m[j].Node?
    ensures |Spliced(kids, i, m)| == |kids| + |m| - 1
    ensures forall j :: 0 <= j < |Spliced(kids, i, m)| ==> Spliced(kids, i, m)[j].Node?
  {
  }

  lemma TwoLeaves(a: Ptr, x: Tree, b: Ptr, y: Tree)
    ensures LeavesAt([a, b], [x, y]) == LeavesOf(a, x) + LeavesOf(b, y)
  {
    hide *;
    assert [a, b] == [a] + [b] && [x, y] == [x] + [y];
    LeavesConcat([a], [x], [b], [y]);
    LeavesOne(a, x);
    LeavesOne(b, y);
  }

  // ---------------------------------------------------------------- one insertion, as a step from store to store

  datatype Store = Store(mem: Memory, next: Links, prev: Links, brk: Ptr)

  ghost predicate Outside(pre: seq<Ptr>, post: seq<Ptr>, s: set<Ptr>) {
    forall p :: p in pre || p in post ==> p !in s
  }

  ghost predicate ParentOk(mem: Memory, parent: Ptr, first: Ptr, n: nat) {
    parent in mem && mem[parent].InnerCell? && mem[parent].num + 1 == n && mem[parent].first == first
  }

  /** Node i of a group is ready for the entry e.  `pre` and `post` are the leaves outside the group. */
  ghost predicate Ready(st: Store, node: Ptr, parent: Ptr, i: nat, e: Pair, first: Ptr, kids: seq<Tree>, lo: int,
                        hi: int, h: nat, pre: seq<Ptr>, post: seq<Ptr>)
  {
    && i < |kids| <= 15 && node == Slot(first, i)
    && BelowBrk(st.mem, st.brk) && st.next.Keys == st.mem.Keys && st.prev.Keys == st.mem.Keys
    && Holds(st.mem, Run(first, |kids|), kids) && AllOfHeight(kids, h)
    && Within(kids[i], lo, hi, h) && lo <= e.key <= hi
    && Linked(st.next, st.prev, pre + LeavesAt(Run(first, |kids|), kids) + post)
    && Outside(pre, post, Occupied(Run(first, |kids|), kids))
    && (parent == NULL ==> |kids| == 1 && h > 0)
    && (parent != NULL ==> ParentOk(st.mem, parent, first, |kids|) && parent !in Occupied(Run(first, |kids|), kids))
  }

  /** The entry e has been inserted below node i of the group. */
  ghost predicate Done(was: Store, st: Store, i: nat, e: Pair, first: Ptr, kids: seq<Tree>, lo: int, hi: int, h: nat,
                       pre: seq<Ptr>, post: seq<Ptr>, newChild: Ptr, o: Outcome)
  {
    && i < |kids| <= 15
    && var locs := Run(first, |kids|);
    var locs', kids' := LocsAfter(first, newChild, |kids|, o), KidsAfter(kids, i, o);
    && was.brk <= st.brk
    && Kept(was.mem, st.mem, Occupied(locs, kids))
    && (newChild == NULL <==> o.Stays?)
    && Correct(kids[i], o, e, lo, hi, h)
    && Holds(st.mem, locs', kids')
    && Occupied(locs', kids') <= Occupied(locs, kids) + Between(was.brk, st.brk)
    && Linked(st.next, st.prev, pre + LeavesAt(locs', kids') + post)
  }

  lemma ReadyParts(st: Store, node: Ptr, parent: Ptr, i: nat, e: Pair, first: Ptr, kids: seq<Tree>, lo: int, hi: int,
                   h: nat, pre: seq<Ptr>, post: seq<Ptr>)
    requires Ready(st, node, parent, i, e, first, kids, lo, hi, h, pre, post)
    ensures i < |kids| <= 15 && node == Slot(first, i) && Run(first, |kids|)[i] == node && node != NULL
      && node in st.mem
    ensures BelowBrk(st.mem, st.brk) && st.next.Keys == st.mem.Keys && st.prev.Keys == st.mem.Keys
    ensures Holds(st.mem, Run(first, |kids|), kids) && AllOfHeight(kids, h)
    ensures Within(kids[i], lo, hi, h) && lo <= e.key <= hi
    ensures Linked(st.next, st.prev, pre + LeavesAt(Run(first, |kids|), kids) + post)
    ensures Outside(pre, post, Occupied(Run(first, |kids|), kids))
    ensures parent == NULL ==> |kids| == 1 && h > 0
    ensures parent != NULL ==> ParentOk(st.mem, parent, first, |kids|) && parent !in Occupied(Run(first, |kids|), kids)
  {
    hide Occupied, LeavesAt, Linked, Outside, Holds, Within, ParentOk;
    HoldsParts(st.mem, Run(first, |kids|), kids, i);
  }

  lemma DoneIs(was: Store, st: Store, i: nat, e: Pair, first: Ptr, kids: seq<Tree>, lo: int, hi: int, h: nat,
               pre: seq<Ptr>, post: seq<Ptr>, newChild: Ptr, o: Outcome)
    requires i < |kids| <= 15 && was.brk <= st.brk
    requires Kept(was.mem, st.mem, Occupied(Run(first, |kids|), kids))
    requires newChild == NULL <==> o.Stays?
    requires Correct(kids[i], o, e, lo, hi, h)
    requires Holds(st.mem, LocsAfter(first, newChild, |kids|, o), KidsAfter(kids, i, o))
    requires Occupied(LocsAfter(first, newChild, |kids|, o), KidsAfter(kids, i, o))
      <= Occupied(Run(first, |kids|), kids) + Between(was.brk, st.brk)
    requires Linked(st.next, st.prev, pre + LeavesAt(LocsAfter(first, newChild, |kids|, o), KidsAfter(kids, i, o))
      + post)
    ensures Done(was, st, i, e, first, kids, lo, hi, h, pre, post, newChild, o)
  {
    hide Occupied, LeavesAt, Linked, Outside, Holds, Within, ParentOk, Kept, Correct, KidsAfter, LocsAfter;
  }

  // ---------------------------------------------------------------- a leaf

  lemma ReadyLeaf(st: Store, node: Ptr, parent: Ptr, i: nat, e: Pair, first: Ptr, kids: seq<Tree>, lo: int, hi: int,
                  pre: seq<Ptr>, post: seq<Ptr>)
    requires Ready(st, node, parent, i, e, first, kids, lo, hi, 0, pre, post)
    ensures i < |kids| <= 15 && node in st.mem && kids[i].Leaf? && |kids[i].es| <= 6
    ensures var c := st.mem[node];
      c.LeafCell? && |c.entries| == 6 && c.num <= 6 && c.entries[..c.num] == kids[i].es && Sorted(c.entries[..c.num])
          && c.num == |kids[i].es|
    ensures BelowBrk(st.mem, st.brk) && st.next.Keys == st.mem.Keys && st.prev.Keys == st.mem.Keys
  {
    hide *;
    ReadyParts(st, node, parent, i, e, first, kids, lo, hi, 0, pre, post);
    HoldsParts(st.mem, Run(first, |kids|), kids, i);
    WithinLeaf(kids[i], lo, hi);
    LeafCellFacts(st.mem[node], kids[i].es);
  }

  lemma WithinLeaf(t: Tree, lo: int, hi: int)
    requires Within(t, lo, hi, 0)
    ensures t.Leaf? && |t.es| <= 6 && Sorted(t.es)
  {
  }

  lemma LeafCellFacts(c: Cell, es: seq<Pair>)
    requires CellFor(c, Leaf(es))
    ensures c.LeafCell? && |c.entries| == 6 && c.num <= 6 && c.entries[..c.num] == es && c.num == |es|
  {
  }

  lemma AllLeaves(locs: seq<Ptr>, kids: seq<Tree>, i: nat, m: seq<Tree>, locs': seq<Ptr>)
    requires AllOfHeight(kids, 0) && i < |kids| && |locs| == |kids| && |locs'| == |kids| + |m| - 1
    requires forall j :: 0 <= j < |m| ==> m[j].Leaf?
    ensures |Spliced(kids, i, m)| == |locs'|
    ensures LeavesAt(locs, kids) == locs && LeavesAt(locs', Spliced(kids, i, m)) == locs'
  {
    hide LeavesAt;
    LeafGroup(locs, kids);
    LeafGroup(locs', Spliced(kids, i, m));
  }

  lemma LeafRoomDone(was: Store, node: Ptr, parent: Ptr, i: nat, e: Pair, first: Ptr, kids: seq<Tree>, lo: int, hi: int,
                     pre: seq<Ptr>, post: seq<Ptr>, entries: seq<Pair>)
    requires Ready(was, node, parent, i, e, first, kids, lo, hi, 0, pre, post)
    requires i < |kids| && kids[i].Leaf? && |entries| == 6 && |kids[i].es| < 6
    requires entries[..|kids[i].es| + 1] == Gap(kids[i].es, LowerBound(kids[i].es, e.key), e)
    ensures var st := was.(mem := was.mem[node := LeafCell(|kids[i].es| + 1, entries)]);
      Done(was, st, i, e, first, kids, lo, hi, 0, pre, post, NULL, Stays(Leaf(PutPair(kids[i].es, e))))
  {
    hide *;
    var es := kids[i].es;
    var o := Stays(Leaf(PutPair(es, e)));
    var c := LeafCell(|es| + 1, entries);
    var mem' := was.mem[node := c];
    var locs := Run(first, |kids|);
    ReadyParts(was, node, parent, i, e, first, kids, lo, hi, 0, pre, post);
    WithinLeaf(kids[i], lo, hi);
    LeafRoom(es, e, entries, lo, hi);
    LeafStays(was.mem, mem', locs, kids, i, PutPair(es, e), c);
    OneSpliced(kids, i, o.x);
    AllLeaves(locs, kids, i, [o.x], locs);
    AfterIs(first, NULL, kids, i, o);
    CorrectIs(kids[i], o, e, lo, hi, 0);
    DoneIs(was, was.(mem := mem'), i, e, first, kids, lo, hi, 0, pre, post, NULL, o);
  }

  lemma OneSpliced(kids: seq<Tree>, i: nat, x: Tree)
    requires i < |kids|
    ensures kids[i := x] == Spliced(kids, i, [x])
  {
  }

  lemma AfterIs(first: Ptr, newChild: Ptr, kids: seq<Tree>, i: nat, o: Outcome)
    requires i < |kids| <= 15
    ensures KidsAfter(kids, i, o) == if o.Stays? then kids[i := o.x] else Spliced(kids, i, [o.x, o.y])
    ensures LocsAfter(first, newChild, |kids|, o) == if o.Stays? then Run(first, |kids|)
      else Places(first, newChild, |kids|)
  {
  }

  lemma CorrectIs(t: Tree, o: Outcome, e: Pair, lo: int, hi: int, h: nat)
    ensures Correct(t, o, e, lo, hi, h) <==> if o.Stays? then Grew(t, o.x, e, lo, hi, h)
      else Parted(t, o.x, o.s, o.y, e, lo, hi, h)
  {
  }

  lemma LeafRoom(es: seq<Pair>, e: Pair, entries: seq<Pair>, lo: int, hi: int)
    requires Within(Leaf(es), lo, hi, 0) && |es| < 6 && lo <= e.key <= hi && |entries| == 6
    requires entries[..|es| + 1] == Gap(es, LowerBound(es, e.key), e)
    ensures CellFor(LeafCell(|es| + 1, entries), Leaf(PutPair(es, e)))
    ensures Grew(Leaf(es), Leaf(PutPair(es, e)), e, lo, hi, 0)
  {
    LeafGrew(es, e, lo, hi);
    hide Grew, Within, LowerBound;
  }

  // ---------------------------------------------------------------- room in a group

  /** Making room behind node i moved the nodes of the group and nothing else. */
  ghost predicate RoomMade(mem: Memory, mem': Memory, first: Ptr, newGroup: Ptr, n: nat, i: nat) {
    && (forall j :: 0 <= j < n ==> Slot(first, j) in mem)
    && (forall j :: 0 <= j <= n ==> PlaceAt(first, newGroup, n, j) in mem')
    && (forall j :: 0 <= j <= n && j != i + 1 && Source(i, j) < n ==>
        mem'[PlaceAt(first, newGroup, n, j)] == mem[Slot(first, Source(i, j))])
    && (forall p :: p in mem ==> p in mem')
    && (forall p :: p in mem && !(first < p < first + n) ==> mem'[p] == mem[p])
  }

  /** Filling nodes i and i + 1 after making room. */
  lemma RoomFilled(mem: Memory, mem1: Memory, mem2: Memory, first: Ptr, newGroup: Ptr, n: nat, i: nat, cx: Cell,
                   cy: Cell)
    requires i < n <= 15 && first != NULL && newGroup != NULL && RoomMade(mem, mem1, first, newGroup, n, i)
    requires BelowBrk(mem, newGroup)
    requires mem2 == mem1[PlaceAt(first, newGroup, n, i + 1) := cy][PlaceAt(first, newGroup, n, i) := cx]
    ensures NewPlaces(Run(first, n), Places(first, newGroup, n), Between(0, newGroup))
    ensures NewPlaces(Run(first, n), Places(first, newGroup, n), mem.Keys)
    ensures GroupMoved(mem, mem2, Run(first, n), Places(first, newGroup, n), i, cx, cy)
  {
    var locs, locs' := Run(first, n), Places(first, newGroup, n);
    forall j | 0 <= j < n ensures Slot(first, j) in Between(0, newGroup) { assert Slot(first, j) in mem; }
    PlacesAreNew(first, newGroup, n, Between(0, newGroup));
    PlacesAreNew(first, newGroup, n, mem.Keys);
    hide NewPlaces;
    PlacesDistinct(locs, locs', mem.Keys);
    forall j | 0 <= j < |locs'|
      ensures locs'[j] in mem2
      ensures j != i && j != i + 1 ==> mem2[locs'[j]] == mem[locs[Source(i, j)]]
      ensures j == i ==> mem2[locs'[j]] == cx
      ensures j == i + 1 ==> mem2[locs'[j]] == cy
    {
      assert locs'[j] == PlaceAt(first, newGroup, n, j);
      if j != i && j != i + 1 { assert locs'[j] != locs'[i] && locs'[j] != locs'[i + 1]; SourceOther(i, j, n); }
    }
    forall p | p in mem
      ensures p in mem2
      ensures p !in locs ==> mem2[p] == mem[p]
    {
      if first <= p < first + n { assert locs[p - first] == p; }
    }
  }

  lemma PlacesDistinct(locs: seq<Ptr>, locs': seq<Ptr>, used: set<Ptr>)
    requires NewPlaces(locs, locs', used)
    ensures forall j, k :: 0 <= j < k < |locs'| ==> locs'[j] != locs'[k]
    ensures forall j :: 0 <= j < |locs'| && locs'[j] in used ==> locs'[j] in locs
  {
  }

  /** The places taken are those of the old group or newly handed out. */
  lemma PlacesTaken(first: Ptr, newGroup: Ptr, n: nat, brk: Ptr)
    requires 0 < n <= 15 && brk == newGroup + (if n < 15 then n + 1 else 8)
    ensures Elems(Places(first, newGroup, n)) <= Elems(Run(first, n)) + Between(newGroup, brk)
  {
    var locs' := Places(first, newGroup, n);
    forall p | p in locs' ensures p in Run(first, n) || p in Between(newGroup, brk) {
      var j :| 0 <= j < |locs'| && locs'[j] == p;
      assert p == PlaceAt(first, newGroup, n, j);
      if n == 15 && j < 8 { assert Run(first, n)[j] == p; }
    }
  }

  lemma RoomAt(mem: Memory, mem': Memory, first: Ptr, newGroup: Ptr, n: nat, i: nat)
    requires RoomMade(mem, mem', first, newGroup, n, i) && i < n
    ensures Slot(first, i) in mem && PlaceAt(first, newGroup, n, i) in mem'
      && PlaceAt(first, newGroup, n, i + 1) in mem'
    ensures mem'[PlaceAt(first, newGroup, n, i)] == mem[Slot(first, i)]
  {
  }

  lemma PutPairLength(es: seq<Pair>, e: Pair)
    ensures |PutPair(es, e)| == |es| + 1
  {
  }

  lemma ReadySlots(st: Store, node: Ptr, parent: Ptr, i: nat, e: Pair, first: Ptr, kids: seq<Tree>, lo: int, hi: int,
                   h: nat, pre: seq<Ptr>, post: seq<Ptr>)
    requires Ready(st, node, parent, i, e, first, kids, lo, hi, h, pre, post)
    ensures first != NULL && forall j :: 0 <= j < |kids| ==> Slot(first, j) in st.mem
    ensures parent != NULL ==>
      parent in st.mem && st.mem[parent].InnerCell? && st.mem[parent].num + 1 == |kids| && st.mem[parent].first == first
  {
    hide *;
    ReadyParts(st, node, parent, i, e, first, kids, lo, hi, h, pre, post);
    ParentParts(st.mem, parent, first, |kids|);
    HoldsParts(st.mem, Run(first, |kids|), kids, 0);
    SlotZero(first);
    forall j | 0 <= j < |kids| ensures Slot(first, j) in st.mem { HoldsParts(st.mem, Run(first, |kids|), kids, j); }
  }

  lemma SlotZero(first: Ptr)
    ensures Slot(first, 0) == first
  {
  }

  lemma ParentParts(mem: Memory, parent: Ptr, first: Ptr, n: nat)
    ensures ParentOk(mem, parent, first, n) <==>
      parent in mem && mem[parent].InnerCell? && mem[parent].num + 1 == n && mem[parent].first == first
  {
  }

  /** The leaves of the group are its cells. */
  lemma ReadyLeafGroup(st: Store, node: Ptr, parent: Ptr, i: nat, e: Pair, first: Ptr, kids: seq<Tree>, lo: int,
                       hi: int, pre: seq<Ptr>, post: seq<Ptr>)
    requires Ready(st, node, parent, i, e, first, kids, lo, hi, 0, pre, post)
    ensures parent != NULL && Linked(st.next, st.prev, pre + Run(first, |kids|) + post)
  {
    hide *;
    ReadyParts(st, node, parent, i, e, first, kids, lo, hi, 0, pre, post);
    WithinLeaf(kids[i], lo, hi);
    AllLeaves(Run(first, |kids|), kids, i, [kids[i]], Run(first, |kids|));
  }

  // ---------------------------------------------------------------- a leaf splits

  lemma HalvesInCells(es: seq<Pair>, e: Pair, lower: seq<Pair>, upper: seq<Pair>)
    requires |es| == 6 && |lower| == 6 && |upper| == 6
    requires lower[..4] == Gap(es, LowerBound(es, e.key), e)[..4]
    requires upper[..3] == Gap(es, LowerBound(es, e.key), e)[4..]
    ensures |PutPair(es, e)| == 7 && lower[3] == PutPair(es, e)[3]
    ensures CellFor(LeafCell(4, lower), Leaf(PutPair(es, e)[..4]))
    ensures CellFor(LeafCell(3, upper), Leaf(PutPair(es, e)[4..]))
  {
    hide LowerBound;
    assert lower[3] == lower[..4][3];
  }

  lemma LeafSplitDone(was: Store, roomy: Memory, st: Store, node: Ptr, parent: Ptr, i: nat, e: Pair, first: Ptr,
                      kids: seq<Tree>, lo: int, hi: int, pre: seq<Ptr>, post: seq<Ptr>, newChild: Ptr, lower: seq<Pair>,
                      upper: seq<Pair>)
    requires Ready(was, node, parent, i, e, first, kids, lo, hi, 0, pre, post)
    requires i < |kids| <= 15 && kids[i].Leaf? && |kids[i].es| == 6 && |lower| == 6 && |upper| == 6
    requires lower[..4] == Gap(kids[i].es, LowerBound(kids[i].es, e.key), e)[..4]
    requires upper[..3] == Gap(kids[i].es, LowerBound(kids[i].es, e.key), e)[4..]
    requires newChild == was.brk && newChild != NULL && st.brk == newChild + (if |kids| < 15 then |kids| + 1 else 8)
    requires RoomMade(was.mem, roomy, first, newChild, |kids|, i)
    requires st.mem == roomy[PlaceAt(first, newChild, |kids|, i + 1) := LeafCell(3, upper)]
        [PlaceAt(first, newChild, |kids|, i) := LeafCell(4, lower)]
    requires Linked(st.next, st.prev, pre + Places(first, newChild, |kids|) + post)
    ensures |PutPair(kids[i].es, e)| == 7
    ensures var p := PutPair(kids[i].es, e);
      Done(was, st, i, e, first, kids, lo, hi, 0, pre, post, newChild, Splits(Leaf(p[..4]), lower[3].key, Leaf(p[4..])))
  {
    hide *;
    var es := kids[i].es;
    ReadyParts(was, node, parent, i, e, first, kids, lo, hi, 0, pre, post);
    ReadySlots(was, node, parent, i, e, first, kids, lo, hi, 0, pre, post);
    HalvesInCells(es, e, lower, upper);
    var p := PutPair(es, e);
    var x, y := Leaf(p[..4]), Leaf(p[4..]);
    var o := Splits(x, lower[3].key, y);
    LeafIs(kids[i]);
    LeafParted(es, e, lo, hi);
    var locs, locs' := Run(first, |kids|), Places(first, newChild, |kids|);
    RoomFilled(was.mem, roomy, st.mem, first, newChild, |kids|, i, LeafCell(4, lower), LeafCell(3, upper));
    LeafSplits(was.mem, st.mem, locs, locs', kids, i, p[..4], p[4..], LeafCell(4, lower), LeafCell(3, upper));
    PlacesTaken(first, newChild, |kids|, st.brk);
    LocsOccupied(locs, kids);
    AllLeaves(locs, kids, i, [x, y], locs');
    AfterIs(first, newChild, kids, i, o);
    CorrectIs(kids[i], o, e, lo, hi, 0);
    DoneIs(was, st, i, e, first, kids, lo, hi, 0, pre, post, newChild, o);
  }

  lemma LeafIs(t: Tree)
    requires t.Leaf?
    ensures |t.es| == 6 ==> |t.es| == MAX_ENTRIES
    ensures Leaf(t.es) == t
  {
  }
}
