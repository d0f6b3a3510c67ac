/** CSB+-trees in memory: one cell per node, the children of a node in consecutive cells. */
module CsbCells {
  import opened SortedPairs
  import opened CsbShape
  import opened CsbGrowth

  /** A leaf with room for six entries or an inner node with room for fourteen separators. */
  datatype Cell =
    | LeafCell(num: nat, entries: seq<Pair>)
    | InnerCell(num: nat, keys: seq<int>, first: Ptr)

  type Memory = map<Ptr, Cell>

  /** The cell shows the top of the tree. */
  ghost predicate CellFor(c: Cell, t: Tree) {
    match t
    case Leaf(es) => c.LeafCell? && |c.entries| == MAX_ENTRIES && c.num <= MAX_ENTRIES && c.entries[..c.num] == es
    case Node(keys, first, kids) =>
      && c.InnerCell? && |c.keys| == MAX_KEYS && c.num <= MAX_KEYS && c.keys[..c.num] == keys
      && c.first == first && |kids| == c.num + 1
  }

  /** Cell of node j of a group. */
  function Slot(group: Ptr, j: nat): Ptr {
    group + j
  }

  /** The cells of a group of n nodes. */
  function Run(group: Ptr, n: nat): (r: seq<Ptr>)
    ensures |r| == n && forall i :: 0 <= i < n ==> r[i] == Slot(group, i)
  {
    seq(n, i requires 0 <= i < n => Slot(group, i))
  }

  /** The cells handed out while the frontier moved. */
  function Between(start: Ptr, end: Ptr): (r: set<Ptr>)
    ensures forall p :: p in r <==> start <= p < end
    decreases end - start
  {
    if start >= end then {} else {start} + Between(start + 1, end)
  }

  /** The nodes below t are in memory. */
  ghost predicate Below(mem: Memory, t: Tree)
    decreases t, 0
  {
    t.Node? ==> StandAt(mem, Run(t.first, |t.kids|), t.kids)
  }

  /** Trees whose top nodes are in the given cells. */
  ghost predicate StandAt(mem: Memory, locs: seq<Ptr>, kids: seq<Tree>)
    decreases kids, 1
  {
    && |locs| == |kids|
    && forall j :: 0 <= j < |kids| ==> locs[j] in mem && CellFor(mem[locs[j]], kids[j]) && Below(mem, kids[j])
  }

  function Elems(s: seq<Ptr>): (r: set<Ptr>)
    ensures forall p :: p in r <==> p in s
  {
    set p | p in s
  }

  /** The cells of the nodes below t. */
  ghost function Under(t: Tree): set<Ptr>
    decreases t, 0
  {
    if t.Leaf? then {} else Occupied(Run(t.first, |t.kids|), t.kids)
  }

  ghost function Occupied(locs: seq<Ptr>, kids: seq<Tree>): set<Ptr>
    decreases kids, 1
  {
    Elems(locs) + (set j, p | 0 <= j < |kids| && p in Under(kids[j]) :: p)
  }

  /** No two nodes share a cell. */
  ghost predicate TreeApart(t: Tree)
    decreases t, 0
  {
    t.Node? ==> ApartAt(Run(t.first, |t.kids|), t.kids)
  }

  ghost predicate ApartAt(locs: seq<Ptr>, kids: seq<Tree>)
    decreases kids, 1
  {
    && |locs| == |kids|
    && (forall j :: 0 <= j < |locs| ==> locs[j] != NULL)
    && (forall j, k :: 0 <= j < k < |locs| ==> locs[j] != locs[k])
    && (forall j :: 0 <= j < |kids| ==> TreeApart(kids[j]))
    && (forall j, k :: 0 <= j < |locs| && 0 <= k < |kids| ==> locs[j] !in Under(kids[k]))
    && (forall j, k :: 0 <= j < k < |kids| ==> Under(kids[j]) !! Under(kids[k]))
  }

  ghost predicate Holds(mem: Memory, locs: seq<Ptr>, kids: seq<Tree>) {
    StandAt(mem, locs, kids) && ApartAt(locs, kids)
  }

  /** Addresses of the leaves, left to right. */
  ghost function LeavesOf(a: Ptr, t: Tree): seq<Ptr>
    decreases t, 0
  {
    if t.Leaf? then [a] else LeavesAt(Run(t.first, |t.kids|), t.kids)
  }

  ghost function LeavesAt(locs: seq<Ptr>, kids: seq<Tree>): seq<Ptr>
    decreases kids, 1
  {
    if kids == [] || locs == [] then [] else LeavesOf(locs[0], kids[0]) + LeavesAt(locs[1..], kids[1..])
  }

  ghost predicate AllOfHeight(kids: seq<Tree>, h: nat) {
    forall j :: 0 <= j < |kids| ==> kids[j].Leaf? == (h == 0)
  }

  // ---------------------------------------------------------------- facts by unfolding

  lemma HoldsParts(mem: Memory, locs: seq<Ptr>, kids: seq<Tree>, i: nat)
    requires Holds(mem, locs, kids) && i < |kids|
    ensures |locs| == |kids| && locs[i] != NULL && locs[i] in mem && CellFor(mem[locs[i]], kids[i])
    ensures Below(mem, kids[i]) && TreeApart(kids[i]) && locs[i] !in Under(kids[i])
  {
  }

  lemma KidsHold(mem: Memory, t: Tree)
    requires t.Node? && Below(mem, t) && TreeApart(t)
    ensures Holds(mem, Run(t.first, |t.kids|), t.kids)
    ensures Under(t) == Occupied(Run(t.first, |t.kids|), t.kids)
  {
  }

  lemma NodeHolds(mem: Memory, t: Tree)
    requires t.Node? && Holds(mem, Run(t.first, |t.kids|), t.kids)
    ensures Below(mem, t) && TreeApart(t)
    ensures Under(t) == Occupied(Run(t.first, |t.kids|), t.kids)
  {
  }

  lemma LeafHolds(mem: Memory, es: seq<Pair>)
    ensures Below(mem, Leaf(es)) && TreeApart(Leaf(es)) && Under(Leaf(es)) == {}
  {
  }

  lemma InOccupied(locs: seq<Ptr>, kids: seq<Tree>, i: nat)
    requires i < |kids|
    ensures Under(kids[i]) <= Occupied(locs, kids)
    ensures i < |locs| ==> locs[i] in Occupied(locs, kids)
  {
    forall p | p in Under(kids[i]) ensures p in Occupied(locs, kids) {}
  }

  lemma OccupiedWithin(locs: seq<Ptr>, kids: seq<Tree>, s: set<Ptr>)
    requires forall j :: 0 <= j < |locs| ==> locs[j] in s
    requires forall j :: 0 <= j < |kids| ==> Under(kids[j]) <= s
    ensures Occupied(locs, kids) <= s
  {
  }

  // ---------------------------------------------------------------- frames

  ghost predicate Same(mem: Memory, mem': Memory, s: set<Ptr>) {
    forall p :: p in s && p in mem ==> p in mem' && mem'[p] == mem[p]
  }

  lemma {:induction false} BelowFrame(mem: Memory, mem': Memory, t: Tree)
    requires Below(mem, t) && Same(mem, mem', Under(t))
    ensures Below(mem', t)
    decreases t, 0
  {
    if t.Node? {
      var locs := Run(t.first, |t.kids|);
      StandFrame(mem, mem', locs, t.kids);
    }
  }

  lemma {:induction false} StandFrame(mem: Memory, mem': Memory, locs: seq<Ptr>, kids: seq<Tree>)
    requires StandAt(mem, locs, kids) && Same(mem, mem', Occupied(locs, kids))
    ensures StandAt(mem', locs, kids)
    decreases kids, 1
  {
    hide CellFor, Occupied, Under;
    forall j | 0 <= j < |kids|
      ensures locs[j] in mem' && CellFor(mem'[locs[j]], kids[j]) && Below(mem', kids[j])
    {
      InOccupied(locs, kids, j);
      BelowFrame(mem, mem', kids[j]);
    }
  }

  lemma {:induction false} UnderInMemory(mem: Memory, t: Tree)
    requires Below(mem, t)
    ensures Under(t) <= mem.Keys
    decreases t, 0
  {
    if t.Node? { OccupiedInMemory(mem, Run(t.first, |t.kids|), t.kids); }
  }

  lemma {:induction false} OccupiedInMemory(mem: Memory, locs: seq<Ptr>, kids: seq<Tree>)
    requires StandAt(mem, locs, kids)
    ensures Occupied(locs, kids) <= mem.Keys
    decreases kids, 1
  {
    hide Occupied, Under, CellFor;
    forall j | 0 <= j < |kids| ensures Under(kids[j]) <= mem.Keys {
      UnderInMemory(mem, kids[j]);
    }
    OccupiedWithin(locs, kids, mem.Keys);
  }

  // ---------------------------------------------------------------- one kid of a group changes

  /** Kid i becomes x where it is. */
  lemma KidChanged(mem: Memory, mem': Memory, locs: seq<Ptr>, kids: seq<Tree>, i: nat, x: Tree, extra: set<Ptr>)
    requires Holds(mem, locs, kids) && i < |kids|
    requires extra !! mem.Keys
    requires locs[i] in mem' && CellFor(mem'[locs[i]], x) && Below(mem', x) && TreeApart(x)
    requires Under(x) <= Under(kids[i]) + extra
    requires forall p :: p in mem && p !in Under(kids[i]) && p != locs[i] ==> p in mem' && mem'[p] == mem[p]
    ensures Holds(mem', locs, kids[i := x])
    ensures Occupied(locs, kids[i := x]) <= Occupied(locs, kids) + extra
  {
    hide *;
    var kids' := kids[i := x];
    HoldsParts(mem, locs, kids, i);
    forall j | 0 <= j < |kids|
      ensures locs[j] in mem' && CellFor(mem'[locs[j]], kids'[j]) && Below(mem', kids'[j])
    {
      if j != i { KidKept(mem, mem', locs, kids, i, j); }
    }
    StandsIs(mem', locs, kids');
    ApartParts(mem, locs, kids);
    KidChangedApart(mem, locs, kids, i, x, extra);
    KidChangedOccupied(locs, kids, i, x, extra);
    HoldsIs(mem', locs, kids');
  }

  lemma HoldsIs(mem: Memory, locs: seq<Ptr>, kids: seq<Tree>)
    requires StandAt(mem, locs, kids) && ApartAt(locs, kids)
    ensures Holds(mem, locs, kids)
  {
  }

  lemma ApartParts(mem: Memory, locs: seq<Ptr>, kids: seq<Tree>)
    requires Holds(mem, locs, kids)
    ensures StandAt(mem, locs, kids) && ApartAt(locs, kids) && |locs| == |kids| && Occupied(locs, kids) <= mem.Keys
  {
    OccupiedInMemory(mem, locs, kids);
  }

  lemma StandsIs(mem: Memory, locs: seq<Ptr>, kids: seq<Tree>)
    requires |locs| == |kids|
    requires forall j :: 0 <= j < |kids| ==> locs[j] in mem && CellFor(mem[locs[j]], kids[j]) && Below(mem, kids[j])
    ensures StandAt(mem, locs, kids)
  {
    hide CellFor, Below;
  }

  lemma KidChangedOccupied(locs: seq<Ptr>, kids: seq<Tree>, i: nat, x: Tree, extra: set<Ptr>)
    requires i < |kids| == |locs| && Under(x) <= Under(kids[i]) + extra
    ensures Occupied(locs, kids[i := x]) <= Occupied(locs, kids) + extra
  {
    hide *;
    var kids' := kids[i := x];
    var all := Occupied(locs, kids) + extra;
    forall j | 0 <= j < |kids| ensures Under(kids'[j]) <= all && locs[j] in all {
      InOccupied(locs, kids, j);
    }
    OccupiedWithin(locs, kids', all);
  }

  lemma KidKept(mem: Memory, mem': Memory, locs: seq<Ptr>, kids: seq<Tree>, i: nat, j: nat)
    requires Holds(mem, locs, kids) && i < |kids| && j < |kids| && i != j
    requires forall p :: p in mem && p !in Under(kids[i]) && p != locs[i] ==> p in mem' && mem'[p] == mem[p]
    ensures locs[j] in mem' && mem'[locs[j]] == mem[locs[j]] && CellFor(mem'[locs[j]], kids[j]) && Below(mem', kids[j])
  {
    hide CellFor, Under, TreeApart;
    assert Under(kids[i]) !! Under(kids[j]);
    BelowFrame(mem, mem', kids[j]);
  }

  lemma KidChangedApart(mem: Memory, locs: seq<Ptr>, kids: seq<Tree>, i: nat, x: Tree, extra: set<Ptr>)
    requires ApartAt(locs, kids) && i < |kids| && Occupied(locs, kids) <= mem.Keys
    requires extra !! mem.Keys && TreeApart(x) && Under(x) <= Under(kids[i]) + extra
    ensures ApartAt(locs, kids[i := x])
  {
    hide Occupied, Under, TreeApart;
    var kids' := kids[i := x];
    forall j | 0 <= j < |kids| ensures Under(kids[j]) <= mem.Keys && locs[j] in mem {
      InOccupied(locs, kids, j);
    }
    forall j, k | 0 <= j < k < |kids| ensures Under(kids'[j]) !! Under(kids'[k]) {
      assert Under(kids[j]) !! Under(kids[k]);
    }
  }

  // ---------------------------------------------------------------- a kid becomes two

  /** Where kid j of the group after the split was before (j = i and j = i + 1 are the two halves of kid i). */
  function Source(i: nat, j: nat): nat {
    if j <= i then j else j - 1
  }

  /** Locations of a group with one more kid, each an old one or beyond all memory in use. */
  ghost predicate NewPlaces(locs: seq<Ptr>, locs': seq<Ptr>, used: set<Ptr>) {
    && |locs'| == |locs| + 1
    && (forall j :: 0 <= j < |locs'| ==> locs'[j] != NULL && (locs'[j] in locs || locs'[j] !in used))
    && (forall j, k :: 0 <= j < k < |locs'| ==> locs'[j] != locs'[k])
  }

  /** Kid i becomes x and y, and the group moves to other cells.  `mid` is memory before the group moved. */
  lemma KidSplit(mem: Memory, mem': Memory, locs: seq<Ptr>, locs': seq<Ptr>, kids: seq<Tree>, i: nat, x: Tree, y: Tree,
                 extra: set<Ptr>, used: set<Ptr>)
    requires Holds(mem, locs, kids) && i < |kids|
    requires extra !! mem.Keys && mem.Keys + extra <= used
    requires NewPlaces(locs, locs', used)
    requires Below(mem', x) && TreeApart(x) && Below(mem', y) && TreeApart(y)
    requires Under(x) !! Under(y) && Under(x) + Under(y) <= Under(kids[i]) + extra
    requires locs'[i] in mem' && CellFor(mem'[locs'[i]], x)
    requires locs'[i + 1] in mem' && CellFor(mem'[locs'[i + 1]], y)
    requires forall j :: 0 <= j < |locs'| && j != i && j != i + 1 ==>
               locs'[j] in mem' && mem'[locs'[j]] == mem[locs[Source(i, j)]]
    requires forall p :: p in mem && p !in Under(kids[i]) && p !in locs ==> p in mem' && mem'[p] == mem[p]
    ensures Holds(mem', locs', Spliced(kids, i, [x, y]))
    ensures Occupied(locs', Spliced(kids, i, [x, y])) <= Occupied(locs, kids) + extra + Elems(locs')
  {
    hide *;
    var kids' := Spliced(kids, i, [x, y]);
    SplicedAt(kids, i, x, y);
    ApartParts(mem, locs, kids);
    NewPlacesParts(locs, locs', used);
    forall j | 0 <= j < |kids'|
      ensures locs'[j] in mem' && CellFor(mem'[locs'[j]], kids'[j]) && Below(mem', kids'[j])
    {
      if j != i && j != i + 1 {
        SourceOther(i, j, |kids|);
        KidMoved(mem, mem', locs, kids, i, Source(i, j));
      }
    }
    StandsIs(mem', locs', kids');
    KidSplitApart(mem, locs, locs', kids, i, x, y, extra, used);
    HoldsIs(mem', locs', kids');
    KidSplitOccupied(locs, locs', kids, i, x, y, extra);
  }

  lemma NewPlacesParts(locs: seq<Ptr>, locs': seq<Ptr>, used: set<Ptr>)
    requires NewPlaces(locs, locs', used)
    ensures |locs'| == |locs| + 1
  {
  }

  lemma SourceOther(i: nat, j: nat, n: nat)
    requires i < n && j <= n && j != i && j != i + 1
    ensures Source(i, j) < n && Source(i, j) != i
  {
  }

  lemma KidSplitOccupied(locs: seq<Ptr>, locs': seq<Ptr>, kids: seq<Tree>, i: nat, x: Tree, y: Tree, extra: set<Ptr>)
    requires i < |kids| && |locs'| == |kids| + 1
    requires Under(x) + Under(y) <= Under(kids[i]) + extra
    ensures Occupied(locs', Spliced(kids, i, [x, y])) <= Occupied(locs, kids) + extra + Elems(locs')
  {
    hide Occupied, Under;
    var kids' := Spliced(kids, i, [x, y]);
    SplicedAt(kids, i, x, y);
    var all := Occupied(locs, kids) + extra + Elems(locs');
    InOccupied(locs, kids, i);
    forall j | 0 <= j < |kids'| ensures Under(kids'[j]) <= all && locs'[j] in all {
      InOccupied(locs, kids, Source(i, j));
    }
    OccupiedWithin(locs', kids', all);
  }

  lemma SplicedAt(kids: seq<Tree>, i: nat, x: Tree, y: Tree)
    requires i < |kids|
    ensures var kids' := Spliced(kids, i, [x, y]);
      && |kids'| == |kids| + 1 && kids'[i] == x && kids'[i + 1] == y
      && forall j :: 0 <= j < |kids'| && j != i && j != i + 1 ==> kids'[j] == kids[Source(i, j)]
  {
  }

  lemma KidMoved(mem: Memory, mem': Memory, locs: seq<Ptr>, kids: seq<Tree>, i: nat, k: nat)
    requires Holds(mem, locs, kids) && i < |kids| && k < |kids| && k != i
    requires forall p :: p in mem && p !in Under(kids[i]) && p !in locs ==> p in mem' && mem'[p] == mem[p]
    ensures CellFor(mem[locs[k]], kids[k]) && Below(mem', kids[k])
  {
    hide CellFor, Under, TreeApart;
    assert Under(kids[i]) !! Under(kids[k]);
    BelowFrame(mem, mem', kids[k]);
  }

  lemma KidSplitApart(mem: Memory, locs: seq<Ptr>, locs': seq<Ptr>, kids: seq<Tree>, i: nat, x: Tree, y: Tree,
                      extra: set<Ptr>, used: set<Ptr>)
    requires ApartAt(locs, kids) && i < |kids| && Occupied(locs, kids) <= mem.Keys
    requires extra !! mem.Keys && mem.Keys + extra <= used && NewPlaces(locs, locs', used)
    requires TreeApart(x) && TreeApart(y)
    requires Under(x) !! Under(y) && Under(x) + Under(y) <= Under(kids[i]) + extra
    ensures ApartAt(locs', Spliced(kids, i, [x, y]))
  {
    hide Occupied, Under, TreeApart;
    var kids' := Spliced(kids, i, [x, y]);
    SplicedAt(kids, i, x, y);
    forall j | 0 <= j < |kids'| ensures Under(kids'[j]) <= Under(kids[Source(i, j)]) + extra {}
    forall j | 0 <= j < |kids| ensures Under(kids[j]) <= mem.Keys && locs[j] in mem {
      InOccupied(locs, kids, j);
    }
    forall j, k | 0 <= j < |locs'| && 0 <= k < |kids'| ensures locs'[j] !in Under(kids'[k]) {
      assert Under(kids'[k]) <= Under(kids[Source(i, k)]) + extra;
    }
    forall j, k | 0 <= j < k < |kids'| ensures Under(kids'[j]) !! Under(kids'[k]) {
      var a, b := Source(i, j), Source(i, k);
      if a != b { assert Under(kids[a]) !! Under(kids[b]); }
    }
  }

  /** A group of sixteen in two places is two groups. */
  lemma CutHolds(mem: Memory, locs: seq<Ptr>, kids: seq<Tree>, m: nat)
    requires Holds(mem, locs, kids) && m <= |kids|
    ensures |locs| == |kids|
    ensures Holds(mem, locs[..m], kids[..m]) && Holds(mem, locs[m..], kids[m..])
    ensures Occupied(locs[..m], kids[..m]) !! Occupied(locs[m..], kids[m..])
    ensures Occupied(locs[..m], kids[..m]) + Occupied(locs[m..], kids[m..]) <= Occupied(locs, kids)
  {
    hide CellFor, Under, TreeApart, Below;
    var l1, l2, k1, k2 := locs[..m], locs[m..], kids[..m], kids[m..];
    assert forall j :: 0 <= j < |l2| ==> l2[j] == locs[m + j] && k2[j] == kids[m + j];
    CutStands(mem, locs, kids, m);
    CutApart(locs, kids, m);
    CutOccupied(locs, kids, m);
  }

  lemma CutStands(mem: Memory, locs: seq<Ptr>, kids: seq<Tree>, m: nat)
    requires StandAt(mem, locs, kids) && m <= |kids|
    ensures StandAt(mem, locs[..m], kids[..m]) && StandAt(mem, locs[m..], kids[m..])
  {
    hide CellFor, Below;
  }

  lemma CutApart(locs: seq<Ptr>, kids: seq<Tree>, m: nat)
    requires ApartAt(locs, kids) && m <= |kids|
    ensures ApartAt(locs[..m], kids[..m]) && ApartAt(locs[m..], kids[m..])
  {
    hide Under, TreeApart;
    var l2, k2 := locs[m..], kids[m..];
    assert forall j :: 0 <= j < |l2| ==> l2[j] == locs[m + j] && k2[j] == kids[m + j];
  }

  lemma CutOccupied(locs: seq<Ptr>, kids: seq<Tree>, m: nat)
    requires ApartAt(locs, kids) && m <= |kids|
    ensures Occupied(locs[..m], kids[..m]) !! Occupied(locs[m..], kids[m..])
    ensures Occupied(locs[..m], kids[..m]) + Occupied(locs[m..], kids[m..]) <= Occupied(locs, kids)
  {
    hide Under, TreeApart;
    var l1, l2, k1, k2 := locs[..m], locs[m..], kids[..m], kids[m..];
    assert forall j :: 0 <= j < |l2| ==> l2[j] == locs[m + j] && k2[j] == kids[m + j];
    forall p | p in Occupied(l1, k1) ensures p !in Occupied(l2, k2) {
    }
  }

  // ---------------------------------------------------------------- leaves

  lemma {:induction false} LeavesConcat(l1: seq<Ptr>, k1: seq<Tree>, l2: seq<Ptr>, k2: seq<Tree>)
    requires |l1| == |k1| && |l2| == |k2|
    ensures LeavesAt(l1 + l2, k1 + k2) == LeavesAt(l1, k1) + LeavesAt(l2, k2)
    decreases |k1|
  {
    if k1 == [] {
      assert k1 + k2 == k2 && l1 + l2 == l2;
    } else {
      assert (k1 + k2)[0] == k1[0] && (k1 + k2)[1..] == k1[1..] + k2;
      assert (l1 + l2)[0] == l1[0] && (l1 + l2)[1..] == l1[1..] + l2;
      LeavesConcat(l1[1..], k1[1..], l2, k2);
    }
  }

  lemma LeavesOne(a: Ptr, t: Tree)
    ensures LeavesAt([a], [t]) == LeavesOf(a, t)
  {
    assert [t][1..] == [] && [a][1..] == [];
    assert LeavesAt([a], [t]) == LeavesOf(a, t) + LeavesAt([a][1..], [t][1..]);
  }

  /** The leaves under kid i between those of its siblings. */
  lemma LeavesAround(locs: seq<Ptr>, kids: seq<Tree>, i: nat)
    requires |locs| == |kids| && i < |kids|
    ensures LeavesAt(locs, kids) == LeavesAt(locs[..i], kids[..i]) + LeavesOf(locs[i], kids[i])
      + LeavesAt(locs[i + 1..], kids[i + 1..])
  {
    hide LeavesAt, LeavesOf;
    assert locs == (locs[..i] + [locs[i]]) + locs[i + 1..];
    assert kids == (kids[..i] + [kids[i]]) + kids[i + 1..];
    LeavesConcat(locs[..i] + [locs[i]], kids[..i] + [kids[i]], locs[i + 1..], kids[i + 1..]);
    LeavesConcat(locs[..i], kids[..i], [locs[i]], [kids[i]]);
    LeavesOne(locs[i], kids[i]);
  }

  /** Where inner nodes are does not matter for the leaves under them. */
  lemma {:induction false} LeavesMoved(locs: seq<Ptr>, locs': seq<Ptr>, kids: seq<Tree>)
    requires |locs| == |locs'| == |kids| && forall j :: 0 <= j < |kids| ==> kids[j].Node?
    ensures LeavesAt(locs, kids) == LeavesAt(locs', kids)
    decreases |kids|
  {
    if kids != [] { LeavesMoved(locs[1..], locs'[1..], kids[1..]); }
  }

  /** A group of leaves. */
  lemma {:induction false} LeafGroup(locs: seq<Ptr>, kids: seq<Tree>)
    requires |locs| == |kids| && forall j :: 0 <= j < |kids| ==> kids[j].Leaf?
    ensures LeavesAt(locs, kids) == locs
    decreases |kids|
  {
    if kids != [] { LeafGroup(locs[1..], kids[1..]); }
  }

  lemma {:induction false} LeavesInside(a: Ptr, t: Tree)
    ensures forall p :: p in LeavesOf(a, t) ==> p == a || p in Under(t)
    decreases t, 0
  {
    if t.Node? { LeavesAreOccupied(Run(t.first, |t.kids|), t.kids); }
  }

  lemma {:induction false} LeavesAreOccupied(locs: seq<Ptr>, kids: seq<Tree>)
    requires |locs| == |kids|
    ensures forall p :: p in LeavesAt(locs, kids) ==> p in Occupied(locs, kids)
    decreases kids, 1
  {
    if kids != [] {
      LeavesInside(locs[0], kids[0]);
      LeavesAreOccupied(locs[1..], kids[1..]);
      OccupiedTail(locs, kids);
    }
  }

  lemma OccupiedTail(locs: seq<Ptr>, kids: seq<Tree>)
    requires |locs| == |kids| > 0
    ensures Occupied(locs, kids) >= Occupied(locs[1..], kids[1..]) + {locs[0]} + Under(kids[0])
  {
    hide Under;
    forall p | p in Occupied(locs[1..], kids[1..]) ensures p in Occupied(locs, kids) {
      if p in locs[1..] {
        assert p in locs;
      } else {
        var j :| 0 <= j < |kids[1..]| && p in Under(kids[1..][j]);
        assert p in Under(kids[j + 1]);
      }
    }
    forall p | p in Under(kids[0]) ensures p in Occupied(locs, kids) {}
  }

  /** Leaves beside kid i are not under it. */
  lemma LeavesBeside(locs: seq<Ptr>, kids: seq<Tree>, i: nat)
    requires ApartAt(locs, kids) && i < |kids|
    ensures forall p :: p in LeavesAt(locs[..i], kids[..i]) || p in LeavesAt(locs[i + 1..], kids[i + 1..]) ==>
      p != locs[i] && p !in Under(kids[i]) && p in Occupied(locs, kids)
  {
    hide Under, LeavesAt, TreeApart;
    LeavesAreOccupied(locs[..i], kids[..i]);
    LeavesAreOccupied(locs[i + 1..], kids[i + 1..]);
    OccupiedBeside(locs, kids, i);
  }

  lemma OccupiedBeside(locs: seq<Ptr>, kids: seq<Tree>, i: nat)
    requires ApartAt(locs, kids) && i < |kids|
    ensures forall p :: p in Occupied(locs[..i], kids[..i]) || p in Occupied(locs[i + 1..], kids[i + 1..]) ==>
      p != locs[i] && p !in Under(kids[i]) && p in Occupied(locs, kids)
  {
    assert |locs| == |kids|;
    hide ApartAt;
    CutOccupied(locs, kids, i);
    CutOccupied(locs, kids, i + 1);
    assert locs[..i + 1][i] == locs[i] && kids[..i + 1][i] == kids[i];
    InOccupied(locs[..i + 1], kids[..i + 1], i);
    assert locs[i..][0] == locs[i] && kids[i..][0] == kids[i];
    InOccupied(locs[i..], kids[i..], 0);
    hide Occupied;
  }
}
