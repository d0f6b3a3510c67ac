/** An inner node after the insertion below it: one kid replaced, a kid added, or the node split. */
module CsbNodeSteps {
  import opened SortedPairs
  import opened CsbShape
  import opened CsbGrowth
  import opened CsbCells
  import opened CsbLinks
  import opened CsbSteps

  // ---------------------------------------------------------------- going down

  /** Leaves left and right of the kids of node i. */
  ghost function LeavesLeft(first: Ptr, kids: seq<Tree>, i: nat, pre: seq<Ptr>): seq<Ptr>
    requires i < |kids|
  {
    pre + LeavesAt(Run(first, |kids|)[..i], kids[..i])
  }

  ghost function LeavesRight(first: Ptr, kids: seq<Tree>, i: nat, post: seq<Ptr>): seq<Ptr>
    requires i < |kids|
  {
    LeavesAt(Run(first, |kids|)[i + 1..], kids[i + 1..]) + post
  }

  lemma ReadyNode(st: Store, node: Ptr, parent: Ptr, i: nat, e: Pair, first: Ptr, kids: seq<Tree>, lo: int, hi: int,
                  h: nat, pre: seq<Ptr>, post: seq<Ptr>)
    requires Ready(st, node, parent, i, e, first, kids, lo, hi, h, pre, post) && h > 0
    ensures i < |kids| && node in st.mem && kids[i].Node?
    ensures var c, t := st.mem[node], kids[i];
      && c.InnerCell? && |c.keys| == 14 && c.num <= 14 && c.keys[..c.num] == t.keys && c.first == t.first
         && |t.kids| == c.num + 1
      && |t.keys| == c.num && (forall i, j :: 0 <= i <= j < c.num ==> c.keys[i] <= c.keys[j])
      && var l := KeyIndex(t.keys, e.key);
      Ready(st, Slot(t.first, l), node, l, e, t.first, t.kids, LoOf(t.keys, lo, l), HiOf(t.keys, hi, l), h - 1,
            LeavesLeft(first, kids, i, pre), LeavesRight(first, kids, i, post))
  {
    hide *;
    ReadyParts(st, node, parent, i, e, first, kids, lo, hi, h, pre, post);
    var locs := Run(first, |kids|);
    var t := kids[i];
    HoldsParts(st.mem, locs, kids, i);
    WithinNode(t, lo, hi, h);
    InnerCellFacts(st.mem[node], t, lo, hi);
    KidsHold(st.mem, t);
    var l := KeyIndex(t.keys, e.key);
    BranchesParts(t.keys, t.kids, lo, hi, h - 1);
    BranchHeights(t.keys, t.kids, lo, hi, h - 1);
    KeyIndexBounds(t.keys, e.key, lo, hi);
    ListAround(st, first, kids, i, pre, post);
    ParentParts(st.mem, node, t.first, |t.kids|);
    MAX_KEYS_Is14(t);
    ReadyIs(st, Slot(t.first, l), node, l, e, t.first, t.kids, LoOf(t.keys, lo, l), HiOf(t.keys, hi, l), h - 1,
            LeavesLeft(first, kids, i, pre), LeavesRight(first, kids, i, post));
  }

  lemma MAX_KEYS_Is14(t: Tree)
    requires t.Node? && |t.keys| <= MAX_KEYS && |t.kids| == |t.keys| + 1
    ensures |t.kids| <= 15
  {
  }

  lemma ReadyIs(st: Store, node: Ptr, parent: Ptr, i: nat, e: Pair, first: Ptr, kids: seq<Tree>, lo: int, hi: int,
                h: nat, pre: seq<Ptr>, post: seq<Ptr>)
    requires i < |kids| <= 15 && node == Slot(first, i) && parent != NULL
    requires BelowBrk(st.mem, st.brk) && st.next.Keys == st.mem.Keys && st.prev.Keys == st.mem.Keys
    requires Holds(st.mem, Run(first, |kids|), kids) && AllOfHeight(kids, h)
    requires Within(kids[i], lo, hi, h) && lo <= e.key <= hi
    requires Linked(st.next, st.prev, pre + LeavesAt(Run(first, |kids|), kids) + post)
    requires Outside(pre, post, Occupied(Run(first, |kids|), kids))
    requires ParentOk(st.mem, parent, first, |kids|) && parent !in Occupied(Run(first, |kids|), kids)
    ensures Ready(st, node, parent, i, e, first, kids, lo, hi, h, pre, post)
  {
    hide Occupied, LeavesAt, Linked, Outside, Holds, Within, ParentOk, AllOfHeight, BelowBrk;
  }

  lemma WithinNode(t: Tree, lo: int, hi: int, h: nat)
    requires Within(t, lo, hi, h) && h > 0
    ensures t.Node? && 1 <= |t.keys| <= MAX_KEYS && Branches(t.keys, t.kids, lo, hi, h - 1)
    ensures |t.kids| == |t.keys| + 1
  {
  }

  lemma InnerCellFacts(c: Cell, t: Tree, lo: int, hi: int)
    requires t.Node? && CellFor(c, t)
    ensures c.InnerCell? && |c.keys| == 14 && c.num <= 14 && c.keys[..c.num] == t.keys && c.first == t.first
      && |t.kids| == c.num + 1
    ensures |t.keys| == c.num
    ensures SortedKeys(t.keys, lo, hi) ==> forall i, j :: 0 <= i <= j < c.num ==> c.keys[i] <= c.keys[j]
  {
    if SortedKeys(t.keys, lo, hi) {
      forall i, j | 0 <= i <= j < c.num ensures c.keys[i] <= c.keys[j] {
        assert c.keys[i] == t.keys[i] && c.keys[j] == t.keys[j];
      }
    }
  }

  lemma BranchHeights(keys: seq<int>, kids: seq<Tree>, lo: int, hi: int, h: nat)
    requires Branches(keys, kids, lo, hi, h)
    ensures AllOfHeight(kids, h)
  {
  }

  lemma KeyIndexBounds(keys: seq<int>, key: int, lo: int, hi: int)
    requires lo <= key <= hi
    ensures var l := KeyIndex(keys, key); LoOf(keys, lo, l) <= key <= HiOf(keys, hi, l)
  {
    hide KeyIndex;
  }

  /** The leaf list seen from the kids of node i. */
  lemma ListAround(st: Store, first: Ptr, kids: seq<Tree>, i: nat, pre: seq<Ptr>, post: seq<Ptr>)
    requires i < |kids| && kids[i].Node? && Holds(st.mem, Run(first, |kids|), kids)
    requires Linked(st.next, st.prev, pre + LeavesAt(Run(first, |kids|), kids) + post)
    requires Outside(pre, post, Occupied(Run(first, |kids|), kids))
    ensures var t := kids[i];
      && Linked(st.next, st.prev, LeavesLeft(first, kids, i, pre) + LeavesAt(Run(t.first, |t.kids|), t.kids)
         + LeavesRight(first, kids, i, post))
      && Outside(LeavesLeft(first, kids, i, pre), LeavesRight(first, kids, i, post),
         Occupied(Run(t.first, |t.kids|), t.kids))
  {
    hide *;
    var locs, t := Run(first, |kids|), kids[i];
    LeavesAround(locs, kids, i);
    LeavesOfNode(locs[i], t);
    ApartParts(st.mem, locs, kids);
    LeavesBeside(locs, kids, i);
    HoldsParts(st.mem, locs, kids, i);
    KidsHold(st.mem, t);
    InOccupied(locs, kids, i);
    SidesAre(first, kids, i, pre, post);
    Sandwich(pre, LeavesAt(locs[..i], kids[..i]), LeavesOf(locs[i], t), LeavesAt(locs[i + 1..], kids[i + 1..]), post);
    StillOutside(pre, post, LeavesLeft(first, kids, i, pre), LeavesRight(first, kids, i, post),
                 LeavesAt(locs[..i], kids[..i]), LeavesAt(locs[i + 1..], kids[i + 1..]), Occupied(locs, kids),
                     Under(t));
  }

  lemma LeavesOfNode(a: Ptr, t: Tree)
    requires t.Node?
    ensures LeavesOf(a, t) == LeavesAt(Run(t.first, |t.kids|), t.kids)
  {
  }

  lemma SidesAre(first: Ptr, kids: seq<Tree>, i: nat, pre: seq<Ptr>, post: seq<Ptr>)
    requires i < |kids|
    ensures LeavesLeft(first, kids, i, pre) == pre + LeavesAt(Run(first, |kids|)[..i], kids[..i])
    ensures LeavesRight(first, kids, i, post) == LeavesAt(Run(first, |kids|)[i + 1..], kids[i + 1..]) + post
  {
  }

  lemma Sandwich(pre: seq<Ptr>, l: seq<Ptr>, m: seq<Ptr>, r: seq<Ptr>, post: seq<Ptr>)
    ensures pre + (l + m + r) + post == (pre + l) + m + (r + post)
  {
  }

  lemma StillOutside(pre: seq<Ptr>, post: seq<Ptr>, pre': seq<Ptr>, post': seq<Ptr>, l: seq<Ptr>, r: seq<Ptr>,
                     s: set<Ptr>, s': set<Ptr>)
    requires Outside(pre, post, s) && s' <= s && pre' == pre + l && post' == r + post
    requires forall p :: p in l || p in r ==> p !in s'
    ensures Outside(pre', post', s')
  {
  }

  // ---------------------------------------------------------------- coming back up

  /** What the insertion below node i left behind, seen from node i. */
  lemma BelowParts(was: Store, mid: Store, l: nat, e: Pair, t: Tree, lo: int, hi: int, h: nat, pre: seq<Ptr>,
                   post: seq<Ptr>, newChild: Ptr, o: Outcome)
    requires t.Node? && Done(was, mid, l, e, t.first, t.kids, lo, hi, h, pre, post, newChild, o)
    ensures l < |t.kids| <= 15 && was.brk <= mid.brk
    ensures Kept(was.mem, mid.mem, Under(t))
    ensures newChild == NULL <==> o.Stays?
    ensures Correct(t.kids[l], o, e, lo, hi, h)
    ensures Holds(mid.mem, LocsAfter(t.first, newChild, |t.kids|, o), KidsAfter(t.kids, l, o))
    ensures Occupied(LocsAfter(t.first, newChild, |t.kids|, o), KidsAfter(t.kids, l, o))
      <= Under(t) + Between(was.brk, mid.brk)
    ensures Linked(mid.next, mid.prev, pre + LeavesAt(LocsAfter(t.first, newChild, |t.kids|, o),
      KidsAfter(t.kids, l, o)) + post)
  {
    hide Occupied, LeavesAt, Linked, Holds, Kept, Correct, KidsAfter, LocsAfter;
  }

  ghost function KeysAfter(keys: seq<int>, l: nat, o: Outcome): seq<int>
    requires l <= |keys|
  {
    match o case Stays(_) => keys case Splits(_, s, _) => Gap(keys, l, s)
  }

  lemma OutcomeBranches(t: Tree, e: Pair, o: Outcome, lo: int, hi: int, h: nat)
    requires t.Node? && Branches(t.keys, t.kids, lo, hi, h)
    requires var l := KeyIndex(t.keys, e.key);
      l < |t.kids| && Correct(t.kids[l], o, e, LoOf(t.keys, lo, l), HiOf(t.keys, hi, l), h)
    ensures var l := KeyIndex(t.keys, e.key);
      BranchesGrew(t.keys, t.kids, KeysAfter(t.keys, l, o), KidsAfter(t.kids, l, o), e, lo, hi, h)
  {
    hide Branches, BranchesGrew, Grew, Parted, LoOf, HiOf, KeyIndex;
    match o {
      case Stays(x) => KidGrew(t.keys, t.kids, x, e, lo, hi, h);
      case Splits(x, s, y) => KidParted(t.keys, t.kids, x, s, y, e, lo, hi, h);
    }
  }

  /** The list with the leaves of x in the place of those of node i. */
  lemma ListWithOne(next: Links, prev: Links, first: Ptr, kids: seq<Tree>, i: nat, x: Tree, pre: seq<Ptr>,
                    post: seq<Ptr>)
    requires i < |kids| && AllNodes(kids) && x.Node?
    requires Linked(next, prev, LeavesLeft(first, kids, i, pre) + LeavesAt(Run(x.first, |x.kids|), x.kids)
      + LeavesRight(first, kids, i, post))
    ensures Linked(next, prev, pre + LeavesAt(Run(first, |kids|), kids[i := x]) + post)
  {
    hide *;
    var locs := Run(first, |kids|);
    AllNodesParts(kids);
    OneSpliced(kids, i, x);
    LeavesReplaced(locs, locs, kids, i, [x], [locs[i]]);
    LeavesOne(locs[i], x);
    LeavesOfNode(locs[i], x);
    SidesAre(first, kids, i, pre, post);
    Sandwich(pre, LeavesAt(locs[..i], kids[..i]), LeavesAt([locs[i]], [x]), LeavesAt(locs[i + 1..], kids[i + 1..]),
        post);
  }

  ghost predicate AllNodes(kids: seq<Tree>) {
    forall j :: 0 <= j < |kids| ==> kids[j].Node?
  }

  lemma AllNodesParts(kids: seq<Tree>)
    ensures AllNodes(kids) <==> forall j :: 0 <= j < |kids| ==> kids[j].Node?
  {
  }

  lemma AllOfHeightNodes(kids: seq<Tree>, h: nat)
    requires AllOfHeight(kids, h) && h > 0
    ensures AllNodes(kids)
  {
  }

  /** The list with the leaves of x and y in the place of those of node i. */
  lemma ListWithTwo(next: Links, prev: Links, first: Ptr, locs': seq<Ptr>, kids: seq<Tree>, i: nat, x: Tree, y: Tree,
                    locs2: seq<Ptr>, kids2: seq<Tree>, pre: seq<Ptr>, post: seq<Ptr>)
    requires i < |kids| && AllNodes(kids) && x.Node? && y.Node? && |locs'| == |kids| + 1
    requires kids2 == x.kids + y.kids && locs2 == Run(x.first, |x.kids|) + Run(y.first, |y.kids|)
    requires Linked(next, prev, LeavesLeft(first, kids, i, pre) + LeavesAt(locs2, kids2)
      + LeavesRight(first, kids, i, post))
    ensures Linked(next, prev, pre + LeavesAt(locs', Spliced(kids, i, [x, y])) + post)
  {
    hide *;
    var locs := Run(first, |kids|);
    AllNodesParts(kids);
    LeavesReplaced(locs, locs', kids, i, [x, y], [first, first]);
    TwoLeaves(first, x, first, y);
    LeavesOfNode(first, x);
    LeavesOfNode(first, y);
    LeavesConcat(Run(x.first, |x.kids|), x.kids, Run(y.first, |y.kids|), y.kids);
    SidesAre(first, kids, i, pre, post);
    Sandwich(pre, LeavesAt(locs[..i], kids[..i]), LeavesAt([first, first], [x, y]),
        LeavesAt(locs[i + 1..], kids[i + 1..]), post);
  }

  // ---------------------------------------------------------------- node i stays one node

  /** Node i keeps its cell, and its kids are those after the insertion below. */
  lemma StaysDone(was: Store, mid: Store, node: Ptr, parent: Ptr, i: nat, e: Pair, first: Ptr, kids: seq<Tree>, lo: int,
                  hi: int, h: nat, pre: seq<Ptr>, post: seq<Ptr>, newChild: Ptr, o: Outcome, c: Cell)
    requires Ready(was, node, parent, i, e, first, kids, lo, hi, h, pre, post) && h > 0
    requires i < |kids| && kids[i].Node?
    requires var t := kids[i]; var l := KeyIndex(t.keys, e.key);
      Done(was, mid, l, e, t.first, t.kids, LoOf(t.keys, lo, l), HiOf(t.keys, hi, l), h - 1,
           LeavesLeft(first, kids, i, pre), LeavesRight(first, kids, i, post), newChild, o)
    requires o.Splits? ==> |kids[i].kids| < 15
    requires CellFor(c, NodeAfter(kids[i], KeyIndex(kids[i].keys, e.key), newChild, o))
    ensures Done(was, mid.(mem := mid.mem[node := c]), i, e, first, kids, lo, hi, h, pre, post, NULL,
                 Stays(NodeAfter(kids[i], KeyIndex(kids[i].keys, e.key), newChild, o)))
  {
    hide *;
    var t := kids[i];
    var l := KeyIndex(t.keys, e.key);
    var locs := Run(first, |kids|);
    ReadyParts(was, node, parent, i, e, first, kids, lo, hi, h, pre, post);
    AllOfHeightNodes(kids, h);
    WithinNode(t, lo, hi, h);
    BelowParts(was, mid, l, e, t, LoOf(t.keys, lo, l), HiOf(t.keys, hi, l), h - 1,
               LeavesLeft(first, kids, i, pre), LeavesRight(first, kids, i, post), newChild, o);
    OutcomeBranches(t, e, o, lo, hi, h - 1);
    var x := NodeAfter(t, l, newChild, o);
    NodeAfterParts(t, l, newChild, o);
    NodeGrew(t, x.keys, x.first, x.kids, e, lo, hi, h - 1);
    var mem' := mid.mem[node := c];
    NodeStays(was.mem, mid.mem, mem', locs, kids, i, x, c, was.brk, mid.brk);
    ListWithOne(mid.next, mid.prev, first, kids, i, x, pre, post);
    AfterIs(first, NULL, kids, i, Stays(x));
    CorrectIs(t, Stays(x), e, lo, hi, h);
    DoneIs(was, mid.(mem := mem'), i, e, first, kids, lo, hi, h, pre, post, NULL, Stays(x));
  }

  ghost function NodeAfter(t: Tree, l: nat, newChild: Ptr, o: Outcome): Tree
    requires t.Node? && l < |t.kids| == |t.keys| + 1
  {
    Node(KeysAfter(t.keys, l, o), if o.Stays? then t.first else newChild, KidsAfter(t.kids, l, o))
  }

  lemma NodeAfterParts(t: Tree, l: nat, newChild: Ptr, o: Outcome)
    requires t.Node? && l < |t.kids| == |t.keys| + 1 && 1 <= |t.keys| <= MAX_KEYS
    requires o.Splits? ==> |t.kids| < 15
    ensures |t.kids| <= 15
    ensures var x := NodeAfter(t, l, newChild, o);
      && x.Node? && x == Node(KeysAfter(t.keys, l, o), x.first, KidsAfter(t.kids, l, o))
      && 1 <= |x.keys| <= MAX_KEYS && Run(x.first, |x.kids|) == LocsAfter(t.first, newChild, |t.kids|, o)
  {
  }

  // ---------------------------------------------------------------- node i is split

  /** The upper half of node i after a split below it. */
  ghost function LowerNode(t: Tree, l: nat, o: Outcome): Tree
    requires t.Node? && l < |t.kids| == 15 && |t.keys| == 14 && o.Splits?
  {
    Node(KeysAfter(t.keys, l, o)[..7], t.first, KidsAfter(t.kids, l, o)[..8])
  }

  ghost function UpperNode(t: Tree, l: nat, newChild: Ptr, o: Outcome): Tree
    requires t.Node? && l < |t.kids| == 15 && |t.keys| == 14 && o.Splits?
  {
    Node(KeysAfter(t.keys, l, o)[8..], newChild, KidsAfter(t.kids, l, o)[8..])
  }

  lemma HalfNodes(t: Tree, l: nat, newChild: Ptr, o: Outcome)
    requires t.Node? && l < |t.kids| == 15 && |t.keys| == 14 && o.Splits?
    ensures |KeysAfter(t.keys, l, o)| == 15 && |KidsAfter(t.kids, l, o)| == 16
    ensures var x := LowerNode(t, l, o);
      x.Node? && x.keys == KeysAfter(t.keys, l, o)[..7] && x.first == t.first && x.kids == KidsAfter(t.kids, l, o)[..8]
    ensures var y := UpperNode(t, l, newChild, o);
      y.Node? && y.keys == KeysAfter(t.keys, l, o)[8..] && y.first == newChild && y.kids == KidsAfter(t.kids, l, o)[8..]
    ensures KidsAfter(t.kids, l, o) == LowerNode(t, l, o).kids + UpperNode(t, l, newChild, o).kids
    ensures KeysAfter(t.keys, l, o) == Gap(t.keys, l, o.s)
    ensures LocsAfter(t.first, newChild, 15, o) == Run(t.first, 8) + Run(newChild, 8)
  {
  }

  lemma HalfNodesHold(mem: Memory, t: Tree, l: nat, newChild: Ptr, o: Outcome, s: set<Ptr>)
    requires t.Node? && l < |t.kids| == 15 && |t.keys| == 14 && o.Splits?
    requires Holds(mem, LocsAfter(t.first, newChild, 15, o), KidsAfter(t.kids, l, o))
    requires Occupied(LocsAfter(t.first, newChild, 15, o), KidsAfter(t.kids, l, o)) <= s
    ensures var x, y := LowerNode(t, l, o), UpperNode(t, l, newChild, o);
      && x.Node? && y.Node? && |x.kids| == |y.kids| == 8
      && Holds(mem, Run(x.first, |x.kids|), x.kids) && Holds(mem, Run(y.first, |y.kids|), y.kids)
      && Occupied(Run(x.first, |x.kids|), x.kids) !! Occupied(Run(y.first, |y.kids|), y.kids)
      && Occupied(Run(x.first, |x.kids|), x.kids) + Occupied(Run(y.first, |y.kids|), y.kids) <= s
  {
    hide *;
    HalfNodes(t, l, newChild, o);
    var locs2, kids2 := LocsAfter(t.first, newChild, 15, o), KidsAfter(t.kids, l, o);
    CutHolds(mem, locs2, kids2, 8);
    assert locs2[..8] == Run(t.first, 8) && locs2[8..] == Run(newChild, 8);
  }

  lemma KeysInCells(keys: seq<int>, l: nat, s: int, first: Ptr, newChild: Ptr, kids: seq<Tree>, lower: seq<int>,
                    upper: seq<int>)
    requires |keys| == 14 && l <= 14 && |lower| == |upper| == 14 && |kids| == 16
    requires lower[..8] == Gap(keys, l, s)[..8] && upper[..7] == Gap(keys, l, s)[8..]
    ensures |Gap(keys, l, s)| == 15 && lower[7] == Gap(keys, l, s)[7]
    ensures CellFor(InnerCell(7, lower, first), Node(Gap(keys, l, s)[..7], first, kids[..8]))
    ensures CellFor(InnerCell(7, upper, newChild), Node(Gap(keys, l, s)[8..], newChild, kids[8..]))
  {
    var g := Gap(keys, l, s);
    assert lower[..7] == lower[..8][..7] && lower[7] == lower[..8][7];
  }

  lemma NodeHalvesInCells(t: Tree, l: nat, newChild: Ptr, o: Outcome, lower: seq<int>, upper: seq<int>)
    requires t.Node? && l < |t.kids| == 15 && |t.keys| == 14 && o.Splits? && |lower| == |upper| == 14
    requires lower[..8] == Gap(t.keys, l, o.s)[..8] && upper[..7] == Gap(t.keys, l, o.s)[8..]
    ensures |KeysAfter(t.keys, l, o)| == 15 && lower[7] == KeysAfter(t.keys, l, o)[7]
    ensures CellFor(InnerCell(7, lower, t.first), LowerNode(t, l, o))
    ensures CellFor(InnerCell(7, upper, newChild), UpperNode(t, l, newChild, o))
  {
    hide CellFor, Gap;
    HalfNodes(t, l, newChild, o);
    KeysInCells(t.keys, l, o.s, t.first, newChild, KidsAfter(t.kids, l, o), lower, upper);
  }

  lemma NodeHalvesParted(t: Tree, l: nat, newChild: Ptr, e: Pair, o: Outcome, lo: int, hi: int, h: nat)
    requires t.Node? && l < |t.kids| == 15 && |t.keys| == 14 && o.Splits?
    requires BranchesGrew(t.keys, t.kids, KeysAfter(t.keys, l, o), KidsAfter(t.kids, l, o), e, lo, hi, h)
    ensures |KeysAfter(t.keys, l, o)| == 15
    ensures Parted(t, LowerNode(t, l, o), KeysAfter(t.keys, l, o)[7], UpperNode(t, l, newChild, o), e, lo, hi, h + 1)
  {
    HalfNodes(t, l, newChild, o);
    hide KeysAfter, KidsAfter, BranchesGrew, Parted;
    NodeParted(t, KeysAfter(t.keys, l, o), t.first, newChild, KidsAfter(t.kids, l, o), e, lo, hi, h);
  }

  lemma NewPlacesLess(locs: seq<Ptr>, locs': seq<Ptr>, used: set<Ptr>, used': set<Ptr>)
    requires NewPlaces(locs, locs', used) && used' <= used
    ensures NewPlaces(locs, locs', used') && |locs'| == |locs| + 1
  {
  }

  /** Leaves below a group of inner nodes are not in the cells of the group. */
  lemma {:induction false} LeavesBelow(mem: Memory, locs: seq<Ptr>, kids: seq<Tree>)
    requires Holds(mem, locs, kids) && AllNodes(kids)
    ensures forall p :: p in LeavesAt(locs, kids) ==> p !in locs
  {
    hide LeavesAt, Under, StandAt;
    forall p | p in LeavesAt(locs, kids) ensures p !in locs {
      var j := LeafUnder(locs, kids, p);
      forall k | 0 <= k < |locs| ensures locs[k] != p {
        assert locs[k] !in Under(kids[j]);
      }
    }
  }

  lemma {:induction false} LeafUnder(locs: seq<Ptr>, kids: seq<Tree>, p: Ptr) returns (j: nat)
    requires |locs| == |kids| && AllNodes(kids) && p in LeavesAt(locs, kids)
    ensures j < |kids| && p in Under(kids[j])
    decreases |kids|
  {
    hide Under;
    if p in LeavesOf(locs[0], kids[0]) {
      LeavesBelowNode(locs[0], kids[0]);
      j := 0;
    } else {
      j := LeafUnder(locs[1..], kids[1..], p);
      j := j + 1;
    }
  }

  lemma LeavesBelowNode(a: Ptr, t: Tree)
    requires t.Node?
    ensures forall p :: p in LeavesOf(a, t) ==> p in Under(t)
  {
    LeavesAreOccupied(Run(t.first, |t.kids|), t.kids);
  }

  lemma LinkedFrame(next: Links, prev: Links, next': Links, prev': Links, leaves: seq<Ptr>)
    requires Linked(next, prev, leaves)
    requires forall p :: p in leaves && p in next ==> p in next' && next'[p] == next[p]
    requires forall p :: p in leaves && p in prev ==> p in prev' && prev'[p] == prev[p]
    ensures Linked(next', prev', leaves)
  {
    hide Distinct;
    forall i | 0 <= i < |leaves|
      ensures leaves[i] in next' && leaves[i] in prev' && next'[leaves[i]] == next[leaves[i]]
        && prev'[leaves[i]] == prev[leaves[i]]
    {
      assert leaves[i] in leaves;
    }
  }

  /** Moving the inner nodes of a group does not touch the leaf list. */
  lemma ListUntouched(mid: Store, st: Store, mem: Memory, first: Ptr, newGroup: Ptr, n: nat, kids': seq<Tree>,
                      pre: seq<Ptr>, post: seq<Ptr>, occ: set<Ptr>)
    requires 0 < n <= 15 && Holds(mem, Places(first, newGroup, n), kids') && AllNodes(kids')
    requires Linked(mid.next, mid.prev, pre + LeavesAt(Places(first, newGroup, n), kids') + post)
    requires Outside(pre, post, occ) && Elems(Run(first, n)) <= occ
    requires forall p :: p in mid.next && !(first < p < first + 8 && n == 15) ==>
      p in st.next && st.next[p] == mid.next[p]
    requires forall p :: p in mid.prev && !(first < p < first + 8 && n == 15) ==>
      p in st.prev && st.prev[p] == mid.prev[p]
    ensures Linked(st.next, st.prev, pre + LeavesAt(Places(first, newGroup, n), kids') + post)
  {
    hide LeavesAt, Holds, AllNodes, Linked, Places;
    var locs' := Places(first, newGroup, n);
    LeavesBelow(mem, locs', kids');
    RunHas2(first, n);
    forall p | first < p < first + 8 && n == 15
      ensures p in locs' && p in Run(first, n)
    {
      assert locs'[p - first] == PlaceAt(first, newGroup, n, p - first);
    }
    LinkedFrame(mid.next, mid.prev, st.next, st.prev, pre + LeavesAt(locs', kids') + post);
  }

  lemma RunHas2(group: Ptr, n: nat)
    ensures forall p :: p in Run(group, n) <==> group <= p < group + n
  {
    forall p | group <= p < group + n ensures p in Run(group, n) {
      assert Run(group, n)[p - group] == Slot(group, p - group);
    }
  }

  lemma HoldsFrame(mem: Memory, mem': Memory, locs: seq<Ptr>, kids: seq<Tree>)
    requires Holds(mem, locs, kids) && Same(mem, mem', Occupied(locs, kids))
    ensures Holds(mem', locs, kids)
  {
    hide *;
    ApartParts(mem, locs, kids);
    StandFrame(mem, mem', locs, kids);
    HoldsIs(mem', locs, kids);
  }

  /** Storing a new root outside the group. */
  lemma RootStored(mem0: Memory, mem: Memory, mem': Memory, locs: seq<Ptr>, kids: seq<Tree>, but: set<Ptr>, root: Ptr,
                   c: Cell)
    requires Holds(mem, locs, kids) && Kept(mem0, mem, but)
    requires mem' == mem || (mem' == mem[root := c] && root !in Occupied(locs, kids) && root !in mem0)
    ensures Holds(mem', locs, kids) && Kept(mem0, mem', but)
  {
    hide Holds, Occupied;
    assert Same(mem, mem', Occupied(locs, kids));
    HoldsFrame(mem, mem', locs, kids);
  }

  lemma TakenCells(a: set<Ptr>, o: set<Ptr>, b1: set<Ptr>, places: set<Ptr>, run: set<Ptr>, b2: set<Ptr>, b: set<Ptr>)
    requires a <= o + b1 + places && places <= run + b2 && run <= o && b1 + b2 <= b
    ensures a <= o + b
  {
  }

  lemma NotTaken(a: set<Ptr>, o: set<Ptr>, places: set<Ptr>, run: set<Ptr>, was: Ptr, mid: Ptr, group: Ptr, brk: Ptr,
                 root: Ptr)
    requires a <= o + Between(was, mid) + places && places <= run + Between(group, brk) && run <= o
    requires forall p :: p in o ==> p < was
    requires was <= mid <= root < group
    ensures root !in a
  {
  }

  lemma OccupiedBelow(mem: Memory, locs: seq<Ptr>, kids: seq<Tree>, brk: Ptr)
    requires Holds(mem, locs, kids) && BelowBrk(mem, brk)
    ensures forall p :: p in Occupied(locs, kids) ==> p < brk && p in mem
  {
    ApartParts(mem, locs, kids);
    hide Occupied;
  }

  lemma SplitDone(was: Store, mid: Store, roomy: Memory, filled: Memory, st: Store, root: Ptr, rc: Cell, node: Ptr,
                  parent: Ptr, i: nat, e: Pair, first: Ptr, kids: seq<Tree>, lo: int, hi: int, h: nat, pre: seq<Ptr>,
                  post: seq<Ptr>, newChild: Ptr, o: Outcome, newGroup: Ptr, lower: seq<int>, upper: seq<int>)
    requires Ready(was, node, parent, i, e, first, kids, lo, hi, h, pre, post) && h > 0
    requires i < |kids| <= 15 && kids[i].Node? && |kids[i].kids| == 15 && |kids[i].keys| == 14 && o.Splits?
    requires var t := kids[i]; var l := KeyIndex(t.keys, e.key);
      && Done(was, mid, l, e, t.first, t.kids, LoOf(t.keys, lo, l), HiOf(t.keys, hi, l), h - 1,
           LeavesLeft(first, kids, i, pre), LeavesRight(first, kids, i, post), newChild, o)
      && |lower| == |upper| == 14 && lower[..8] == Gap(t.keys, l, o.s)[..8] && upper[..7] == Gap(t.keys, l, o.s)[8..]
    requires BelowBrk(mid.mem, mid.brk) && mid.brk <= newGroup && newGroup != NULL
    requires st.brk == newGroup + (if |kids| < 15 then |kids| + 1 else 8)
    requires RoomMade(mid.mem, roomy, first, newGroup, |kids|, i)
    requires filled == roomy[PlaceAt(first, newGroup, |kids|, i + 1) := InnerCell(7, upper, newChild)]
                            [PlaceAt(first, newGroup, |kids|, i) := InnerCell(7, lower, kids[i].first)]
    requires st.mem == filled || (st.mem == filled[root := rc] && mid.brk <= root < newGroup)
    requires forall p :: p in mid.next && !(first < p < first + 8 && |kids| == 15) ==>
      p in st.next && st.next[p] == mid.next[p]
    requires forall p :: p in mid.prev && !(first < p < first + 8 && |kids| == 15) ==>
      p in st.prev && st.prev[p] == mid.prev[p]
    ensures KeyIndex(kids[i].keys, e.key) < |kids[i].kids|
    ensures var t := kids[i]; var l := KeyIndex(t.keys, e.key);
      var o' := Splits(LowerNode(t, l, o), lower[7], UpperNode(t, l, newChild, o));
      Done(was, st, i, e, first, kids, lo, hi, h, pre, post, newGroup, o')
      && (mid.brk <= root < newGroup ==> root !in Occupied(LocsAfter(first, newGroup, |kids|, o'),
         KidsAfter(kids, i, o')))
  {
    hide *;
    var t := kids[i];
    var l := KeyIndex(t.keys, e.key);
    var locs, locs' := Run(first, |kids|), Places(first, newGroup, |kids|);
    ReadyParts(was, node, parent, i, e, first, kids, lo, hi, h, pre, post);
    ReadySlots(was, node, parent, i, e, first, kids, lo, hi, h, pre, post);
    WithinNode(t, lo, hi, h);
    BelowParts(was, mid, l, e, t, LoOf(t.keys, lo, l), HiOf(t.keys, hi, l), h - 1,
               LeavesLeft(first, kids, i, pre), LeavesRight(first, kids, i, post), newChild, o);
    OutcomeBranches(t, e, o, lo, hi, h - 1);
    var x, y := LowerNode(t, l, o), UpperNode(t, l, newChild, o);
    var o' := Splits(x, lower[7], y);
    NodeHalvesParted(t, l, newChild, e, o, lo, hi, h - 1);
    NodeHalvesInCells(t, l, newChild, o, lower, upper);
    CorrectIs(t, o', e, lo, hi, h);
    SplitHolds(was, mid, roomy, filled, first, kids, i, t, l, newChild, o, newGroup, lower, upper);
    PlacesTaken(first, newGroup, |kids|, st.brk);
    LocsOccupied(locs, kids);
    OccupiedBelow(was.mem, locs, kids, was.brk);
    var kids' := Spliced(kids, i, [x, y]);
    if mid.brk <= root < newGroup {
      NotTaken(Occupied(locs', kids'), Occupied(locs, kids), Elems(locs'), Elems(locs), was.brk, mid.brk, newGroup,
          st.brk, root);
      BelowBrkNot(was.mem, was.brk, root);
    }
    RootStored(was.mem, filled, st.mem, locs', kids', Occupied(locs, kids), root, rc);
    TakenCells(Occupied(locs', kids'), Occupied(locs, kids), Between(was.brk, mid.brk), Elems(locs'), Elems(locs),
               Between(newGroup, st.brk), Between(was.brk, st.brk));
    SplitList(mid, st, first, kids, i, t, l, newChild, o, newGroup, h, pre, post, Occupied(locs, kids));
    AfterIs(first, newGroup, kids, i, o');
    DoneIs(was, st, i, e, first, kids, lo, hi, h, pre, post, newGroup, o');
  }

  lemma BelowBrkNot(mem: Memory, brk: Ptr, p: Ptr)
    requires BelowBrk(mem, brk) && brk <= p
    ensures p !in mem
  {
  }

  lemma SplitHolds(was: Store, mid: Store, roomy: Memory, filled: Memory, first: Ptr, kids: seq<Tree>, i: nat, t: Tree,
                   l: nat, newChild: Ptr, o: Outcome, newGroup: Ptr, lower: seq<int>, upper: seq<int>)
    requires i < |kids| <= 15 && t == kids[i] && t.Node? && l < |t.kids| == 15 && |t.keys| == 14 && o.Splits?
    requires first != NULL && Holds(was.mem, Run(first, |kids|), kids) && BelowBrk(was.mem, was.brk)
    requires was.brk <= mid.brk && Kept(was.mem, mid.mem, Under(t))
    requires Holds(mid.mem, LocsAfter(t.first, newChild, 15, o), KidsAfter(t.kids, l, o))
    requires Occupied(LocsAfter(t.first, newChild, 15, o), KidsAfter(t.kids, l, o))
      <= Under(t) + Between(was.brk, mid.brk)
    requires BelowBrk(mid.mem, mid.brk) && mid.brk <= newGroup && newGroup != NULL
    requires RoomMade(mid.mem, roomy, first, newGroup, |kids|, i)
    requires filled == roomy[PlaceAt(first, newGroup, |kids|, i + 1) := InnerCell(7, upper, newChild)]
                            [PlaceAt(first, newGroup, |kids|, i) := InnerCell(7, lower, t.first)]
    requires CellFor(InnerCell(7, lower, t.first), LowerNode(t, l, o))
    requires CellFor(InnerCell(7, upper, newChild), UpperNode(t, l, newChild, o))
    ensures var locs, locs' := Run(first, |kids|), Places(first, newGroup, |kids|);
      var kids' := Spliced(kids, i, [LowerNode(t, l, o), UpperNode(t, l, newChild, o)]);
      && Holds(filled, locs', kids')
      && Occupied(locs', kids') <= Occupied(locs, kids) + Between(was.brk, mid.brk) + Elems(locs')
      && Kept(was.mem, filled, Occupied(locs, kids))
  {
    hide *;
    var locs, locs' := Run(first, |kids|), Places(first, newGroup, |kids|);
    HalfNodesHold(mid.mem, t, l, newChild, o, Under(t) + Between(was.brk, mid.brk));
    BelowBrkMore(mid.mem, mid.brk, newGroup);
    RoomFilled(mid.mem, roomy, filled, first, newGroup, |kids|, i, InnerCell(7, lower, t.first),
        InnerCell(7, upper, newChild));
    NewPlacesLess(locs, locs', Between(0, newGroup), Between(0, mid.brk));
    NodeSplits(was.mem, mid.mem, filled, locs, locs', kids, i, LowerNode(t, l, o), UpperNode(t, l, newChild, o),
               InnerCell(7, lower, t.first), InnerCell(7, upper, newChild), was.brk, mid.brk);
  }

  lemma BelowBrkMore(mem: Memory, brk: Ptr, brk': Ptr)
    requires BelowBrk(mem, brk) && brk <= brk'
    ensures BelowBrk(mem, brk')
  {
  }

  lemma SplitList(mid: Store, st: Store, first: Ptr, kids: seq<Tree>, i: nat, t: Tree, l: nat, newChild: Ptr,
                  o: Outcome, newGroup: Ptr, h: nat, pre: seq<Ptr>, post: seq<Ptr>, occ: set<Ptr>)
    requires i < |kids| <= 15 && t == kids[i] && t.Node? && l < |t.kids| == 15 && |t.keys| == 14 && o.Splits?
      && AllOfHeight(kids, h) && h > 0
    requires Linked(mid.next, mid.prev, LeavesLeft(first, kids, i, pre)
      + LeavesAt(LocsAfter(t.first, newChild, 15, o), KidsAfter(t.kids, l, o))
                                        + LeavesRight(first, kids, i, post))
    requires var kids' := Spliced(kids, i, [LowerNode(t, l, o), UpperNode(t, l, newChild, o)]);
      Holds(st.mem, Places(first, newGroup, |kids|), kids')
    requires Outside(pre, post, occ) && Elems(Run(first, |kids|)) <= occ
    requires forall p :: p in mid.next && !(first < p < first + 8 && |kids| == 15) ==>
      p in st.next && st.next[p] == mid.next[p]
    requires forall p :: p in mid.prev && !(first < p < first + 8 && |kids| == 15) ==>
      p in st.prev && st.prev[p] == mid.prev[p]
    ensures Linked(st.next, st.prev, pre + LeavesAt(Places(first, newGroup, |kids|),
      Spliced(kids, i, [LowerNode(t, l, o), UpperNode(t, l, newChild, o)])) + post)
  {
    hide *;
    var x, y := LowerNode(t, l, o), UpperNode(t, l, newChild, o);
    var kids' := Spliced(kids, i, [x, y]);
    HalfNodes(t, l, newChild, o);
    AllOfHeightNodes(kids, h);
    AllNodesParts(kids);
    SplicedNodes(kids, i, [x, y]);
    AllNodesParts(kids');
    ListWithTwo(mid.next, mid.prev, first, Places(first, newGroup, |kids|), kids, i, x, y,
        LocsAfter(t.first, newChild, 15, o), KidsAfter(t.kids, l, o), pre, post);
    ListUntouched(mid, st, st.mem, first, newGroup, |kids|, kids', pre, post, occ);
  }
}
