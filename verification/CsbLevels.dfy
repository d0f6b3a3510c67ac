/** Bulk loading: one level of a CSB+-tree, and the level of inner nodes above it. */
module CsbLevels {
  import opened SortedPairs
  import opened CsbShape
  import opened CsbGrowth
  import opened CsbCells
  import opened CsbLinks
  import opened CsbLeaves

  /** Keys are C ints. */
  const LOWEST: int := -0x8000_0000
  const HIGHEST: int := 0x7fff_ffff

  /** Lower bound of tree j of a level: the greatest key of its left neighbour. */
  ghost function LowTop(tops: seq<int>, j: nat): int {
    if 0 < j <= |tops| then tops[j - 1] else LOWEST
  }

  /** Where a node keeps its greatest key for the level above: the last entry of a leaf, the slot
      behind the separators of an inner node. */
  function TopSlot(c: Cell): int {
    match c
    case LeafCell(num, entries) => if 0 < num <= |entries| then entries[num - 1].key else 0
    case InnerCell(num, keys, _) => if num < |keys| then keys[num] else 0
  }

  ghost predicate Ascending(tops: seq<int>) {
    && (forall i, j :: 0 <= i <= j < |tops| ==> tops[i] <= tops[j])
    && (forall i :: 0 <= i < |tops| ==> LOWEST <= tops[i] <= HIGHEST)
  }

  /** Tree j of a level. */
  ghost predicate LevelTree(t: Tree, lo: int, top: int, h: nat) {
    Within(t, lo, top, h) && HasKey(Contents(t), top) && AllReachable(t)
  }

  /** A level of trees in consecutive cells, with their greatest keys.  The last tree may lack its
      greatest key in the slot behind its separators. */
  ghost predicate Level(mem: Memory, start: Ptr, trees: seq<Tree>, tops: seq<int>, h: nat) {
    && 0 < |trees| == |tops|
    && Holds(mem, Run(start, |trees|), trees)
    && Ascending(tops)
    && (forall j :: 0 <= j < |trees| ==> LevelTree(trees[j], LowTop(tops, j), tops[j], h))
    && (forall j :: 0 <= j < |trees| - 1 ==> Slot(start, j) in mem && TopSlot(mem[Slot(start, j)]) == tops[j])
  }

  // ---------------------------------------------------------------- cutting a level into groups

  /** Cut points 0 = cuts[0] < ... = n, two to fifteen apart. */
  ghost predicate Cuts(cuts: seq<nat>, n: nat) {
    && |cuts| >= 2 && cuts[0] == 0 && cuts[|cuts| - 1] == n
    && forall j :: 0 <= j < |cuts| - 1 ==> cuts[j] + 2 <= cuts[j + 1] <= cuts[j] + 15
  }

  lemma {:induction false} CutsAscend(cuts: seq<nat>, n: nat, i: nat, j: nat)
    requires Cuts(cuts, n) && i <= j < |cuts|
    ensures cuts[i] + (j - i) <= cuts[j] <= n
    decreases |cuts| - i
  {
    if i == j {
      if i < |cuts| - 1 { CutsAscend(cuts, n, i + 1, |cuts| - 1); }
    } else {
      CutsAscend(cuts, n, i + 1, j);
    }
  }

  lemma CutsStep(cuts: seq<nat>, n: nat, j: nat)
    requires Cuts(cuts, n) && j < |cuts| - 1
    ensures cuts[j] + 2 <= cuts[j + 1] <= n && cuts[j + 1] - cuts[j] <= 15
    ensures j < |cuts| - 2 ==> cuts[j + 1] < n
    ensures j == 0 ==> cuts[j] == 0
  {
    CutsAscend(cuts, n, j + 1, |cuts| - 1);
  }

  /** Node j of the level above. */
  ghost function Above(start: Ptr, trees: seq<Tree>, tops: seq<int>, c: nat, d: nat): Tree
    requires c + 2 <= d <= |trees| == |tops|
  {
    Node(tops[c..d - 1], Slot(start, c), trees[c..d])
  }

  ghost function AllAbove(start: Ptr, trees: seq<Tree>, tops: seq<int>, cuts: seq<nat>): (r: seq<Tree>)
    requires |trees| == |tops| && Cuts(cuts, |trees|)
    ensures |r| == |cuts| - 1
  {
    seq(|cuts| - 1, j requires 0 <= j < |cuts| - 1 => CutsStep(cuts, |trees|, j); Above(start, trees, tops, cuts[j],
        cuts[j + 1]))
  }

  ghost function TopsAbove(tops: seq<int>, cuts: seq<nat>): (r: seq<int>)
    requires Cuts(cuts, |tops|)
    ensures |r| == |cuts| - 1
  {
    seq(|cuts| - 1, j requires 0 <= j < |cuts| - 1 => CutsStep(cuts, |tops|, j); tops[cuts[j + 1] - 1])
  }

  // ---------------------------------------------------------------- one node above

  lemma AboveTree(start: Ptr, trees: seq<Tree>, tops: seq<int>, h: nat, c: nat, d: nat)
    requires c + 2 <= d <= |trees| == |tops| && d - c <= 15 && Ascending(tops)
    requires forall j :: 0 <= j < |trees| ==> LevelTree(trees[j], LowTop(tops, j), tops[j], h)
    ensures LevelTree(Above(start, trees, tops, c, d), LowTop(tops, c), tops[d - 1], h + 1)
  {
    hide Within, Contents, AllReachable;
    var t := Above(start, trees, tops, c, d);
    AboveBranches(trees, tops, h, c, d);
    assert Within(t, LowTop(tops, c), tops[d - 1], h + 1) by { NodeWithin(t, LowTop(tops, c), tops[d - 1], h); }
    AboveHas(trees, tops, c, d);
    forall i | 0 <= i < |t.keys| ensures HasKey(Contents(t.kids[i]), t.keys[i]) {
      assert LevelTree(trees[c + i], LowTop(tops, c + i), tops[c + i], h);
    }
    forall i | 0 <= i < |t.kids| ensures AllReachable(t.kids[i]) {
      assert LevelTree(trees[c + i], LowTop(tops, c + i), tops[c + i], h);
    }
    NodeReachable(t, LowTop(tops, c), tops[d - 1], h + 1);
    assert LevelTree(trees[d - 1], LowTop(tops, d - 1), tops[d - 1], h);
    LastKid(t.kids, tops[d - 1]);
    ContentsOfNode(t);
  }

  lemma ContentsOfNode(t: Tree)
    requires t.Node?
    ensures Contents(t) == Flat(t.kids)
  {
  }

  lemma AboveHas(trees: seq<Tree>, tops: seq<int>, c: nat, d: nat)
    requires c + 2 <= d <= |trees| == |tops|
    ensures var kids := trees[c..d]; forall i :: 0 <= i < |kids| ==> kids[i] == trees[c + i]
    ensures var keys := tops[c..d - 1]; forall i :: 0 <= i < |keys| ==> keys[i] == tops[c + i]
  {
  }

  lemma NodeWithin(t: Tree, lo: int, hi: int, h: nat)
    requires t.Node? && 1 <= |t.keys| <= MAX_KEYS && Branches(t.keys, t.kids, lo, hi, h)
    ensures Within(t, lo, hi, h + 1)
  {
  }

  lemma AboveBranches(trees: seq<Tree>, tops: seq<int>, h: nat, c: nat, d: nat)
    requires c + 2 <= d <= |trees| == |tops| && d - c <= 15 && Ascending(tops)
    requires forall j :: 0 <= j < |trees| ==> LevelTree(trees[j], LowTop(tops, j), tops[j], h)
    ensures Branches(tops[c..d - 1], trees[c..d], LowTop(tops, c), tops[d - 1], h)
  {
    hide Within, HasKey, AllReachable, Contents;
    var keys, kids := tops[c..d - 1], trees[c..d];
    var lo, hi := LowTop(tops, c), tops[d - 1];
    forall i | 0 <= i < |kids|
      ensures Within(kids[i], LoOf(keys, lo, i), HiOf(keys, hi, i), h)
    {
      assert LevelTree(trees[c + i], LowTop(tops, c + i), tops[c + i], h);
    }
  }

  /** Routing finds every key when each separator occurs left of itself. */
  lemma NodeReachable(t: Tree, lo: int, hi: int, h: nat)
    requires t.Node? && Within(t, lo, hi, h) && |t.kids| == |t.keys| + 1
    requires forall i :: 0 <= i < |t.keys| ==> HasKey(Contents(t.kids[i]), t.keys[i])
    requires forall i :: 0 <= i < |t.kids| ==> AllReachable(t.kids[i])
    ensures AllReachable(t)
  {
    hide Contents, Flat, LeafFor, KeyIndex, HasKey;
    forall key | HasKey(Contents(t), key)
      ensures Reaches(t, key)
    {
      assert h > 0 && Branches(t.keys, t.kids, lo, hi, h - 1);
      hide Within;
      RouteCut(t.keys, t.kids, lo, hi, h - 1, key);
      var l := KeyIndex(t.keys, key);
      var left, right := Flat(t.kids[..l]), Flat(t.kids[l + 1..]);
      ContentsOfNode(t);
      HasKeyConcat(left + Contents(t.kids[l]), right, key);
      HasKeyConcat(left, Contents(t.kids[l]), key);
      NotBelow(left, key);
      if HasKey(right, key) { OnlySeparator(t.keys, t.kids, lo, hi, h - 1, l, key); }
      RouteIs(t, key);
    }
  }

  lemma NotBelow(a: seq<Pair>, key: int)
    requires AllBelow(a, key)
    ensures !HasKey(a, key)
  {
  }

  lemma OnlySeparator(keys: seq<int>, kids: seq<Tree>, lo: int, hi: int, h: nat, l: nat, key: int)
    requires Branches(keys, kids, lo, hi, h) && l < |kids| && HasKey(Flat(kids[l + 1..]), key)
    requires l < |keys| ==> key <= keys[l]
    ensures l < |keys| && keys[l] == key
  {
    hide Flat, Contents, Within, KidsOk;
    BranchesOk(keys, kids, lo, hi, h);
    RangeSorted(keys, kids, lo, hi, l + 1, |kids|);
    assert kids[l + 1..|kids|] == kids[l + 1..];
    if l == |keys| {
      assert false;
    }
  }

  lemma {:induction false} LastKid(kids: seq<Tree>, key: int)
    requires |kids| > 0 && HasKey(Contents(kids[|kids| - 1]), key)
    ensures HasKey(Flat(kids), key)
    decreases |kids|
  {
    hide Contents, HasKey;
    HasKeyConcat(Contents(kids[0]), Flat(kids[1..]), key);
    if |kids| > 1 { LastKid(kids[1..], key); }
  }

  // ---------------------------------------------------------------- the level above holds the same

  lemma {:induction false} AboveFlat(start: Ptr, trees: seq<Tree>, tops: seq<int>, cuts: seq<nat>, k: nat)
    requires |trees| == |tops| && Cuts(cuts, |trees|) && k < |cuts|
    ensures cuts[k] <= |trees| && Flat(AllAbove(start, trees, tops, cuts)[..k]) == Flat(trees[..cuts[k]])
    decreases k
  {
    hide *;
    var ups := AllAbove(start, trees, tops, cuts);
    CutsEnd(cuts, |trees|);
    CutsAscend(cuts, |trees|, k, |cuts| - 1);
    if k == 0 {
      CutsStep(cuts, |trees|, 0);
      assert ups[..0] == [] && trees[..cuts[0]] == [];
    } else {
      AboveFlat(start, trees, tops, cuts, k - 1);
      AboveAt(start, trees, tops, cuts, k - 1);
      var c, d := cuts[k - 1], cuts[k];
      assert ups[..k] == ups[..k - 1] + [ups[k - 1]];
      FlatConcat(ups[..k - 1], [ups[k - 1]]);
      FlatOne(ups[k - 1]);
      ContentsOfAbove(start, trees, tops, c, d);
      assert trees[..d] == trees[..c] + trees[c..d];
      FlatConcat(trees[..c], trees[c..d]);
    }
  }

  lemma ContentsOfAbove(start: Ptr, trees: seq<Tree>, tops: seq<int>, c: nat, d: nat)
    requires c + 2 <= d <= |trees| == |tops|
    ensures Contents(Above(start, trees, tops, c, d)) == Flat(trees[c..d])
  {
  }

  lemma {:induction false} AboveLeaves(start: Ptr, trees: seq<Tree>, tops: seq<int>, cuts: seq<nat>, locs: seq<Ptr>,
                                       k: nat)
    requires |trees| == |tops| && Cuts(cuts, |trees|) && k < |cuts| && |locs| == |cuts| - 1
    ensures cuts[k] <= |trees|
    ensures LeavesAt(locs[..k], AllAbove(start, trees, tops, cuts)[..k])
      == LeavesAt(Run(start, |trees|)[..cuts[k]], trees[..cuts[k]])
    decreases k
  {
    hide *;
    var ups, run := AllAbove(start, trees, tops, cuts), Run(start, |trees|);
    CutsEnd(cuts, |trees|);
    CutsAscend(cuts, |trees|, k, |cuts| - 1);
    if k == 0 {
      CutsStep(cuts, |trees|, 0);
      assert ups[..0] == [] && trees[..cuts[0]] == [] && locs[..0] == [] && run[..cuts[0]] == [];
    } else {
      AboveLeaves(start, trees, tops, cuts, locs, k - 1);
      AboveAt(start, trees, tops, cuts, k - 1);
      var c, d := cuts[k - 1], cuts[k];
      assert ups[..k] == ups[..k - 1] + [ups[k - 1]] && locs[..k] == locs[..k - 1] + [locs[k - 1]];
      LeavesConcat(locs[..k - 1], ups[..k - 1], [locs[k - 1]], [ups[k - 1]]);
      LeavesOne(locs[k - 1], ups[k - 1]);
      LeavesOfAbove(locs[k - 1], start, trees, tops, c, d);
      assert trees[..d] == trees[..c] + trees[c..d] && run[..d] == run[..c] + run[c..d];
      LeavesConcat(run[..c], trees[..c], run[c..d], trees[c..d]);
    }
  }

  lemma LeavesOfAbove(a: Ptr, start: Ptr, trees: seq<Tree>, tops: seq<int>, c: nat, d: nat)
    requires c + 2 <= d <= |trees| == |tops|
    ensures LeavesOf(a, Above(start, trees, tops, c, d)) == LeavesAt(Run(start, |trees|)[c..d], trees[c..d])
  {
    RunSlice(start, |trees|, c, d);
  }

  lemma RunSlice(start: Ptr, n: nat, c: nat, d: nat)
    requires c <= d <= n
    ensures Run(start, n)[c..d] == Run(Slot(start, c), d - c)
  {
    var run := Run(start, n);
    forall i | 0 <= i < d - c ensures run[c..d][i] == Run(Slot(start, c), d - c)[i] {
      assert run[c..d][i] == Slot(start, c + i);
    }
  }

  // ---------------------------------------------------------------- the level above in memory

  /** Cells of the new level: node j takes the trees from cut j up to cut j + 1. */
  ghost predicate CellsAbove(mem: Memory, start: Ptr, up: Ptr, tops: seq<int>, cuts: seq<nat>)
    requires Cuts(cuts, |tops|)
  {
    && (forall j :: 0 <= j < |cuts| - 1 ==>
       Slot(up, j) in mem && CellAbove(mem[Slot(up, j)], start, tops, cuts[j], cuts[j + 1]))
    && (forall j :: 0 <= j < |cuts| - 2 ==> TopSlot(mem[Slot(up, j)]) == LowTop(tops, cuts[j + 1]))
  }

  ghost predicate CellAbove(c: Cell, start: Ptr, tops: seq<int>, from: nat, end: nat) {
    && from + 2 <= end <= |tops| && end - from <= 15
    && c.InnerCell? && |c.keys| == 14 && c.num == end - from - 1 && c.keys[..c.num] == tops[from..end - 1]
       && c.first == Slot(start, from)
  }

  lemma LevelUp(mem: Memory, mem': Memory, start: Ptr, up: Ptr, trees: seq<Tree>, tops: seq<int>, h: nat,
                cuts: seq<nat>)
    requires Level(mem, start, trees, tops, h) && Cuts(cuts, |trees|)
    requires up != NULL && (forall p :: p in mem ==> p < up)
    requires forall p :: p in mem ==> p in mem' && mem'[p] == mem[p]
    requires CellsAbove(mem', start, up, tops, cuts)
    ensures Level(mem', up, AllAbove(start, trees, tops, cuts), TopsAbove(tops, cuts), h + 1)
    ensures Flat(AllAbove(start, trees, tops, cuts)) == Flat(trees)
    ensures LeavesAt(Run(up, |cuts| - 1), AllAbove(start, trees, tops, cuts)) == LeavesAt(Run(start, |trees|), trees)
  {
    hide *;
    var m := |cuts| - 1;
    LevelParts(mem, start, trees, tops, h);
    var ups, tops' := AllAbove(start, trees, tops, cuts), TopsAbove(tops, cuts);
    CutsEnd(cuts, |trees|);
    AboveFlat(start, trees, tops, cuts, m);
    AboveLeaves(start, trees, tops, cuts, Run(up, m), m);
    assert ups[..m] == ups && trees[..|trees|] == trees && Run(up, m)[..m] == Run(up, m)
        && Run(start, |trees|)[..|trees|] == Run(start, |trees|);
    AboveHolds(mem, mem', start, up, trees, tops, cuts);
    AboveTops(tops, cuts);
    forall j | 0 <= j < m
      ensures LevelTree(ups[j], LowTop(tops', j), tops'[j], h + 1)
      ensures j < m - 1 ==> Slot(up, j) in mem' && TopSlot(mem'[Slot(up, j)]) == tops'[j]
    {
      CutsStep(cuts, |trees|, j);
      AboveTree(start, trees, tops, h, cuts[j], cuts[j + 1]);
      AboveAt(start, trees, tops, cuts, j);
      TopAboveAt(tops, cuts, j);
      LowTopAbove(tops, cuts, j);
      CellsAboveAt(mem', start, up, tops, cuts, j);
    }
    LevelIs(mem', up, ups, tops', h + 1);
  }

  lemma LevelParts(mem: Memory, start: Ptr, trees: seq<Tree>, tops: seq<int>, h: nat)
    requires Level(mem, start, trees, tops, h)
    ensures 0 < |trees| == |tops| && Holds(mem, Run(start, |trees|), trees) && Ascending(tops)
    ensures forall j :: 0 <= j < |trees| ==> LevelTree(trees[j], LowTop(tops, j), tops[j], h)
    ensures forall j :: 0 <= j < |trees| - 1 ==> Slot(start, j) in mem && TopSlot(mem[Slot(start, j)]) == tops[j]
  {
    hide Holds, Ascending, LevelTree, LowTop;
  }

  lemma LevelIs(mem: Memory, start: Ptr, trees: seq<Tree>, tops: seq<int>, h: nat)
    requires 0 < |trees| == |tops| && Holds(mem, Run(start, |trees|), trees) && Ascending(tops)
    requires forall j :: 0 <= j < |trees| ==> LevelTree(trees[j], LowTop(tops, j), tops[j], h)
    requires forall j :: 0 <= j < |trees| - 1 ==> Slot(start, j) in mem && TopSlot(mem[Slot(start, j)]) == tops[j]
    ensures Level(mem, start, trees, tops, h)
  {
    hide Holds, Ascending, LevelTree, LowTop;
  }

  lemma CutsEnd(cuts: seq<nat>, n: nat)
    requires Cuts(cuts, n)
    ensures |cuts| >= 2 && cuts[|cuts| - 1] == n
  {
  }

  lemma AboveTops(tops: seq<int>, cuts: seq<nat>)
    requires Cuts(cuts, |tops|) && Ascending(tops)
    ensures Ascending(TopsAbove(tops, cuts))
  {
    hide Cuts;
    var tops' := TopsAbove(tops, cuts);
    forall j | 0 <= j < |tops'| ensures cuts[j + 1] <= |tops| && cuts[j + 1] > 0 && tops'[j] == tops[cuts[j + 1] - 1] {
      CutsStep(cuts, |tops|, j);
    }
    forall i, j | 0 <= i <= j < |tops'| ensures tops'[i] <= tops'[j] {
      CutsAscend(cuts, |tops|, i + 1, j + 1);
    }
  }

  lemma AboveAt(start: Ptr, trees: seq<Tree>, tops: seq<int>, cuts: seq<nat>, j: nat)
    requires |trees| == |tops| && Cuts(cuts, |trees|) && j < |cuts| - 1
    ensures cuts[j] + 2 <= cuts[j + 1] <= |trees|
    ensures AllAbove(start, trees, tops, cuts)[j] == Above(start, trees, tops, cuts[j], cuts[j + 1])
  {
    hide Above, Cuts;
    CutsStep(cuts, |trees|, j);
  }

  lemma TopAboveAt(tops: seq<int>, cuts: seq<nat>, j: nat)
    requires Cuts(cuts, |tops|) && j < |cuts| - 1
    ensures cuts[j] + 2 <= cuts[j + 1] <= |tops|
    ensures TopsAbove(tops, cuts)[j] == tops[cuts[j + 1] - 1]
  {
    hide Cuts;
    CutsStep(cuts, |tops|, j);
  }

  lemma LowTopAbove(tops: seq<int>, cuts: seq<nat>, j: nat)
    requires Cuts(cuts, |tops|) && j < |cuts| - 1
    ensures cuts[j] <= |tops| && LowTop(TopsAbove(tops, cuts), j) == LowTop(tops, cuts[j])
  {
    hide TopsAbove, Cuts;
    CutsStep(cuts, |tops|, j);
    if j > 0 { TopAboveAt(tops, cuts, j - 1); }
  }

  lemma CellsAboveAt(mem: Memory, start: Ptr, up: Ptr, tops: seq<int>, cuts: seq<nat>, j: nat)
    requires Cuts(cuts, |tops|) && j < |cuts| - 1 && CellsAbove(mem, start, up, tops, cuts)
    ensures Slot(up, j) in mem && CellAbove(mem[Slot(up, j)], start, tops, cuts[j], cuts[j + 1])
    ensures j < |cuts| - 2 ==> 0 < cuts[j + 1] <= |tops| && TopSlot(mem[Slot(up, j)]) == tops[cuts[j + 1] - 1]
  {
    hide CellAbove, TopSlot;
    CutsStep(cuts, |tops|, j);
  }

  lemma AboveHolds(mem: Memory, mem': Memory, start: Ptr, up: Ptr, trees: seq<Tree>, tops: seq<int>, cuts: seq<nat>)
    requires |trees| == |tops| && Cuts(cuts, |trees|) && Holds(mem, Run(start, |trees|), trees)
    requires up != NULL && (forall p :: p in mem ==> p < up)
    requires forall p :: p in mem ==> p in mem' && mem'[p] == mem[p]
    requires CellsAbove(mem', start, up, tops, cuts)
    ensures Holds(mem', Run(up, |cuts| - 1), AllAbove(start, trees, tops, cuts))
  {
    hide *;
    var ups, run, m := AllAbove(start, trees, tops, cuts), Run(start, |trees|), |cuts| - 1;
    forall j | 0 <= j < m
      ensures Slot(up, j) in mem' && CellFor(mem'[Slot(up, j)], ups[j]) && Below(mem', ups[j]) && TreeApart(ups[j])
        && Under(ups[j]) <= mem.Keys
    {
      AboveAt(start, trees, tops, cuts, j);
      CellsAboveAt(mem', start, up, tops, cuts, j);
      OneAbove(mem, mem', start, trees, tops, cuts[j], cuts[j + 1], mem'[Slot(up, j)]);
    }
    forall j, k | 0 <= j < k < m
      ensures Under(ups[j]) !! Under(ups[k])
    {
      AboveApart(mem, start, trees, tops, cuts, j, k);
    }
    GroupAbove(mem, mem', up, ups);
  }

  lemma AboveApart(mem: Memory, start: Ptr, trees: seq<Tree>, tops: seq<int>, cuts: seq<nat>, j: nat, k: nat)
    requires |trees| == |tops| && Cuts(cuts, |trees|) && Holds(mem, Run(start, |trees|), trees) && j < k < |cuts| - 1
    ensures var ups := AllAbove(start, trees, tops, cuts); Under(ups[j]) !! Under(ups[k])
  {
    hide *;
    var run := Run(start, |trees|);
    ApartParts(mem, run, trees);
    AboveAt(start, trees, tops, cuts, j);
    AboveAt(start, trees, tops, cuts, k);
    CutsAscend(cuts, |trees|, j + 1, k);
    UnderAbove(start, trees, tops, cuts[j], cuts[j + 1]);
    UnderAbove(start, trees, tops, cuts[k], cuts[k + 1]);
    SlicesApart(run, trees, cuts[j], cuts[j + 1], cuts[k], cuts[k + 1]);
  }

  lemma UnderAbove(start: Ptr, trees: seq<Tree>, tops: seq<int>, c: nat, d: nat)
    requires |trees| == |tops| && c + 2 <= d <= |trees|
    ensures Under(Above(start, trees, tops, c, d)) == Occupied(Run(start, |trees|)[c..d], trees[c..d])
  {
    hide Occupied;
    RunSlice(start, |trees|, c, d);
  }

  lemma OneAbove(mem: Memory, mem': Memory, start: Ptr, trees: seq<Tree>, tops: seq<int>, c: nat, d: nat, cell: Cell)
    requires |trees| == |tops| && c + 2 <= d <= |trees| && Holds(mem, Run(start, |trees|), trees)
    requires forall p :: p in mem ==> p in mem' && mem'[p] == mem[p]
    requires CellAbove(cell, start, tops, c, d)
    ensures var t := Above(start, trees, tops, c, d);
      CellFor(cell, t) && Below(mem', t) && TreeApart(t)
          && Under(t) == Occupied(Run(start, |trees|)[c..d], trees[c..d]) && Under(t) <= mem.Keys
  {
    hide Holds, Occupied, Below, TreeApart, Under;
    var run, t := Run(start, |trees|), Above(start, trees, tops, c, d);
    RunSlice(start, |trees|, c, d);
    CutHolds(mem, run, trees, d);
    CutHolds(mem, run[..d], trees[..d], c);
    assert run[..d][c..] == run[c..d] && trees[..d][c..] == trees[c..d];
    NodeHolds(mem, t);
    UnderInMemory(mem, t);
    assert Same(mem, mem', Under(t));
    BelowFrame(mem, mem', t);
  }

  lemma SlicesApart(locs: seq<Ptr>, kids: seq<Tree>, a: nat, b: nat, c: nat, d: nat)
    requires ApartAt(locs, kids) && a <= b <= c <= d <= |kids| == |locs|
    ensures Occupied(locs[a..b], kids[a..b]) !! Occupied(locs[c..d], kids[c..d])
  {
    hide ApartAt, Occupied;
    CutApart(locs, kids, b);
    CutOccupied(locs, kids, b);
    CutOccupied(locs[..b], kids[..b], a);
    assert locs[..b][a..] == locs[a..b] && kids[..b][a..] == kids[a..b];
    CutApart(locs[b..], kids[b..], d - b);
    CutOccupied(locs[b..], kids[b..], d - b);
    CutOccupied(locs[b..][..d - b], kids[b..][..d - b], c - b);
    assert locs[b..][..d - b][c - b..] == locs[c..d] && kids[b..][..d - b][c - b..] == kids[c..d];
  }

  lemma GroupAbove(mem: Memory, mem': Memory, up: Ptr, ups: seq<Tree>)
    requires up != NULL && (forall p :: p in mem ==> p < up)
    requires forall j :: 0 <= j < |ups| ==>
      Slot(up, j) in mem' && CellFor(mem'[Slot(up, j)], ups[j]) && Below(mem', ups[j]) && TreeApart(ups[j])
          && Under(ups[j]) <= mem.Keys
    requires forall j, k :: 0 <= j < k < |ups| ==> Under(ups[j]) !! Under(ups[k])
    ensures Holds(mem', Run(up, |ups|), ups)
  {
    hide CellFor, Below, TreeApart, Under;
  }

  // ---------------------------------------------------------------- nodes built over a level

  /** A node over trees `from` up to `end`.  The slot for the greatest key of the last tree of the
      level may hold anything. */
  ghost predicate SpanCell(c: Cell, low: Ptr, tops: seq<int>, from: nat, end: nat) {
    && from + 2 <= end <= |tops| && end <= from + 14
    && c.InnerCell? && |c.keys| == 14 && c.num == end - from - 1 && c.first == Slot(low, from)
    && forall k :: 0 <= k < end - from && from + k < |tops| - 1 ==> c.keys[k] == tops[from + k]
  }

  ghost predicate SpanCells(mem: Memory, low: Ptr, up: Ptr, tops: seq<int>, cuts: seq<nat>) {
    && |cuts| >= 1 && cuts[0] == 0
    && forall j :: 0 <= j < |cuts| - 1 ==>
       Slot(up, j) in mem && SpanCell(mem[Slot(up, j)], low, tops, cuts[j], cuts[j + 1])
  }

  lemma SpansAreAbove(mem: Memory, low: Ptr, up: Ptr, tops: seq<int>, cuts: seq<nat>)
    requires SpanCells(mem, low, up, tops, cuts) && |cuts| >= 2 && cuts[|cuts| - 1] == |tops|
    ensures Cuts(cuts, |tops|) && CellsAbove(mem, low, up, tops, cuts)
  {
    hide SpanCell, CellAbove, TopSlot;
    assert Cuts(cuts, |tops|) by {
      forall j | 0 <= j < |cuts| - 1 ensures cuts[j] + 2 <= cuts[j + 1] <= cuts[j] + 15 {
        SpanIsAbove(mem[Slot(up, j)], low, tops, cuts[j], cuts[j + 1]);
      }
    }
    forall j | 0 <= j < |cuts| - 1
      ensures Slot(up, j) in mem && CellAbove(mem[Slot(up, j)], low, tops, cuts[j], cuts[j + 1])
    {
      SpanIsAbove(mem[Slot(up, j)], low, tops, cuts[j], cuts[j + 1]);
    }
    forall j | 0 <= j < |cuts| - 2
      ensures TopSlot(mem[Slot(up, j)]) == LowTop(tops, cuts[j + 1])
    {
      SpanIsAbove(mem[Slot(up, j)], low, tops, cuts[j], cuts[j + 1]);
      CutsStep(cuts, |tops|, j);
    }
  }

  lemma SpanIsAbove(c: Cell, low: Ptr, tops: seq<int>, from: nat, end: nat)
    requires SpanCell(c, low, tops, from, end)
    ensures from + 2 <= end <= |tops| && end <= from + 14 && CellAbove(c, low, tops, from, end)
    ensures end < |tops| ==> TopSlot(c) == tops[end - 1]
  {
    assert c.keys[..c.num] == tops[from..end - 1];
  }

  /** One more node. */
  lemma SpanAdded(mem: Memory, low: Ptr, up: Ptr, tops: seq<int>, cuts: seq<nat>, c: Cell, end: nat)
    requires SpanCells(mem, low, up, tops, cuts) && SpanCell(c, low, tops, cuts[|cuts| - 1], end)
    ensures SpanCells(mem[Slot(up, |cuts| - 1) := c], low, up, tops, cuts + [end])
  {
    hide SpanCell;
    var cuts' := cuts + [end];
    var mem' := mem[Slot(up, |cuts| - 1) := c];
    forall j | 0 <= j < |cuts'| - 1 ensures Slot(up, j) in mem'
        && SpanCell(mem'[Slot(up, j)], low, tops, cuts'[j], cuts'[j + 1]) {
      if j < |cuts| - 1 { assert cuts'[j] == cuts[j] && cuts'[j + 1] == cuts[j + 1]; }
    }
  }

  /** The last node gives its last tree away. */
  lemma SpanShortened(mem: Memory, low: Ptr, up: Ptr, tops: seq<int>, cuts: seq<nat>)
    requires SpanCells(mem, low, up, tops, cuts) && |cuts| >= 2
    requires cuts[|cuts| - 1] >= cuts[|cuts| - 2] + 3 && mem[Slot(up, |cuts| - 2)].InnerCell?
      && mem[Slot(up, |cuts| - 2)].num >= 1
    ensures var c := mem[Slot(up, |cuts| - 2)];
      SpanCells(mem[Slot(up, |cuts| - 2) := InnerCell(c.num - 1, c.keys, c.first)], low, up, tops, cuts[..|cuts| - 1]
          + [cuts[|cuts| - 1] - 1])
  {
    var i := |cuts| - 2;
    var c := mem[Slot(up, i)];
    var cuts' := cuts[..i + 1] + [cuts[i + 1] - 1];
    var mem' := mem[Slot(up, i) := InnerCell(c.num - 1, c.keys, c.first)];
    assert SpanCell(c, low, tops, cuts[i], cuts[i + 1]);
    assert SpanCell(InnerCell(c.num - 1, c.keys, c.first), low, tops, cuts[i], cuts[i + 1] - 1);
    hide SpanCell;
    forall j | 0 <= j < |cuts'| - 1 ensures Slot(up, j) in mem'
        && SpanCell(mem'[Slot(up, j)], low, tops, cuts'[j], cuts'[j + 1]) {
      if j < i { assert cuts'[j] == cuts[j] && cuts'[j + 1] == cuts[j + 1]; }
    }
  }

  // ---------------------------------------------------------------- the top

  /** A looser upper bound. */
  lemma {:induction false} WithinWider(t: Tree, lo: int, hi: int, hi': int, h: nat)
    requires Within(t, lo, hi, h) && hi <= hi'
    ensures Within(t, lo, hi', h)
    decreases t
  {
    if t.Node? {
      var n := |t.keys|;
      WithinWider(t.kids[n], LoOf(t.keys, lo, n), hi, hi', h - 1);
      forall i | 0 <= i < |t.kids|
        ensures Within(t.kids[i], LoOf(t.keys, lo, i), HiOf(t.keys, hi', i), h - 1)
      {
        assert Within(t.kids[i], LoOf(t.keys, lo, i), HiOf(t.keys, hi, i), h - 1);
      }
    }
  }

  // ---------------------------------------------------------------- the leaves

  ghost function LeafTrees(a: seq<Pair>, cuts: seq<nat>): (r: seq<Tree>)
    requires LeafCuts(a, cuts)
    ensures |r| == |cuts| - 1
  {
    seq(|cuts| - 1, j requires 0 <= j < |cuts| - 1 => LeafCutsAscend(a, cuts, j, j + 1); Leaf(a[cuts[j]..cuts[j + 1]]))
  }

  /** Cut points 0 = cuts[0] < ... = |a|, at most six apart. */
  ghost predicate LeafCuts(a: seq<Pair>, cuts: seq<nat>) {
    && |cuts| >= 2 && cuts[0] == 0 && cuts[|cuts| - 1] == |a|
    && forall j :: 0 <= j < |cuts| - 1 ==> cuts[j] + 1 <= cuts[j + 1] <= cuts[j] + 6
  }

  lemma {:induction false} LeafCutsAscend(a: seq<Pair>, cuts: seq<nat>, i: nat, j: nat)
    requires LeafCuts(a, cuts) && i <= j < |cuts|
    ensures cuts[i] + (j - i) <= cuts[j] <= |a|
    decreases |cuts| - i
  {
    if i == j {
      if i < |cuts| - 1 { LeafCutsAscend(a, cuts, i + 1, |cuts| - 1); }
    } else {
      LeafCutsAscend(a, cuts, i + 1, j);
    }
  }

  ghost function LeafTops(a: seq<Pair>, cuts: seq<nat>): (r: seq<int>)
    requires LeafCuts(a, cuts)
    ensures |r| == |cuts| - 1
  {
    seq(|cuts| - 1, j requires 0 <= j < |cuts| - 1 => LeafCutsAscend(a, cuts, j, j + 1); a[cuts[j + 1] - 1].key)
  }

  /** Cells of the leaf level. */
  ghost predicate LeafCells(mem: Memory, start: Ptr, a: seq<Pair>, cuts: seq<nat>)
    requires LeafCuts(a, cuts)
  {
    forall j :: 0 <= j < |cuts| - 1 ==>
        Slot(start, j) in mem && LeafCellIs(mem[Slot(start, j)], a, cuts[j], cuts[j + 1])
  }

  ghost predicate LeafCellIs(c: Cell, a: seq<Pair>, from: nat, end: nat) {
    from <= end <= |a| && LeafOk(c) && c.num == end - from && c.entries[..c.num] == a[from..end]
  }

  lemma LeafLevel(mem: Memory, start: Ptr, a: seq<Pair>, cuts: seq<nat>)
    requires LeafCuts(a, cuts) && LeafCells(mem, start, a, cuts) && start != NULL
    requires Sorted(a) && KeysBetween(a, LOWEST, HIGHEST)
    ensures Level(mem, start, LeafTrees(a, cuts), LeafTops(a, cuts), 0)
    ensures Flat(LeafTrees(a, cuts)) == a
    ensures LeavesAt(Run(start, |cuts| - 1), LeafTrees(a, cuts)) == Run(start, |cuts| - 1)
  {
    hide *;
    var trees, tops, m := LeafTrees(a, cuts), LeafTops(a, cuts), |cuts| - 1;
    LeafCutsEnd(a, cuts);
    LeafTopsAscend(a, cuts);
    forall j | 0 <= j < m
      ensures Slot(start, j) in mem && CellFor(mem[Slot(start, j)], trees[j]) && TopSlot(mem[Slot(start, j)]) == tops[j]
      ensures LevelTree(trees[j], LowTop(tops, j), tops[j], 0)
      ensures trees[j].Leaf? && Below(mem, trees[j]) && TreeApart(trees[j]) && Under(trees[j]) == {}
    {
      LeafCutsAscend(a, cuts, j, j + 1);
      LeafCutsStep(a, cuts, j);
      LeafTreeAt(mem, start, a, cuts, j);
      LeafHolds(mem, a[cuts[j]..cuts[j + 1]]);
    }
    GroupAbove(map[], mem, start, trees);
    LeafFlat(a, cuts, m);
    assert trees[..m] == trees && a[..|a|] == a;
    LeafGroup(Run(start, m), trees);
    LevelIs(mem, start, trees, tops, 0);
  }

  lemma LeafCutsEnd(a: seq<Pair>, cuts: seq<nat>)
    requires LeafCuts(a, cuts)
    ensures |cuts| >= 2 && cuts[|cuts| - 1] == |a|
  {
  }

  lemma LeafCutsStep(a: seq<Pair>, cuts: seq<nat>, j: nat)
    requires LeafCuts(a, cuts) && j < |cuts| - 1
    ensures 1 <= cuts[j + 1] - cuts[j] <= 6 && (j == 0 ==> cuts[j] == 0)
  {
  }

  lemma LeafTopsAscend(a: seq<Pair>, cuts: seq<nat>)
    requires LeafCuts(a, cuts) && Sorted(a) && KeysBetween(a, LOWEST, HIGHEST)
    ensures Ascending(LeafTops(a, cuts))
  {
    hide LeafCuts;
    var tops := LeafTops(a, cuts);
    forall j | 0 <= j < |tops| ensures 0 < cuts[j + 1] <= |a| && tops[j] == a[cuts[j + 1] - 1].key {
      LeafCutsAscend(a, cuts, j, j + 1);
    }
    forall i, j | 0 <= i <= j < |tops| ensures tops[i] <= tops[j] {
      LeafCutsAscend(a, cuts, i + 1, j + 1);
    }
  }

  lemma LeafTreeAt(mem: Memory, start: Ptr, a: seq<Pair>, cuts: seq<nat>, j: nat)
    requires LeafCuts(a, cuts) && LeafCells(mem, start, a, cuts) && j < |cuts| - 1 && cuts[j] < cuts[j + 1] <= |a|
    requires Sorted(a) && KeysBetween(a, LOWEST, HIGHEST)
    ensures Slot(start, j) in mem && CellFor(mem[Slot(start, j)], Leaf(a[cuts[j]..cuts[j + 1]]))
    ensures LeafTrees(a, cuts)[j] == Leaf(a[cuts[j]..cuts[j + 1]])
    ensures TopSlot(mem[Slot(start, j)]) == LeafTops(a, cuts)[j]
    ensures LevelTree(LeafTrees(a, cuts)[j], LowTop(LeafTops(a, cuts), j), LeafTops(a, cuts)[j], 0)
  {
    hide LevelTree, LeafCuts, Sorted, KeysBetween, LeafCells, LowTop;
    LeafCutsStep(a, cuts, j);
    var c, d := cuts[j], cuts[j + 1];
    LeafCellAt(mem, start, a, cuts, j);
    var cell := mem[Slot(start, j)];
    assert cell.entries[cell.num - 1] == cell.entries[..cell.num][cell.num - 1] == a[d - 1];
    LowLeafTop(a, cuts, j);
    LeafTreeOk(a, c, d, LowTop(LeafTops(a, cuts), j));
  }

  lemma LeafCellAt(mem: Memory, start: Ptr, a: seq<Pair>, cuts: seq<nat>, j: nat)
    requires LeafCuts(a, cuts) && LeafCells(mem, start, a, cuts) && j < |cuts| - 1
    ensures Slot(start, j) in mem && LeafCellIs(mem[Slot(start, j)], a, cuts[j], cuts[j + 1])
  {
    hide LeafCellIs;
  }

  lemma LowLeafTop(a: seq<Pair>, cuts: seq<nat>, j: nat)
    requires LeafCuts(a, cuts) && j < |cuts| - 1 && Sorted(a) && KeysBetween(a, LOWEST, HIGHEST)
    ensures cuts[j] < |a| && LowTop(LeafTops(a, cuts), j) <= a[cuts[j]].key
  {
    LeafCutsAscend(a, cuts, j, j + 1);
    if j > 0 {
      LeafCutsAscend(a, cuts, j - 1, j);
      assert LeafTops(a, cuts)[j - 1] == a[cuts[j] - 1].key;
    }
  }

  lemma LeafTreeOk(a: seq<Pair>, c: nat, d: nat, lo: int)
    requires Sorted(a) && KeysBetween(a, LOWEST, HIGHEST) && c < d <= |a| && d - c <= 6
    requires lo <= a[c].key
    ensures LevelTree(Leaf(a[c..d]), lo, a[d - 1].key, 0)
  {
    var es := a[c..d];
    assert es[d - c - 1] == a[d - 1];
  }

  lemma {:induction false} LeafFlat(a: seq<Pair>, cuts: seq<nat>, k: nat)
    requires LeafCuts(a, cuts) && k < |cuts|
    ensures cuts[k] <= |a| && Flat(LeafTrees(a, cuts)[..k]) == a[..cuts[k]]
    decreases k
  {
    hide Contents;
    var trees := LeafTrees(a, cuts);
    LeafCutsAscend(a, cuts, k, k);
    if k > 0 {
      LeafFlat(a, cuts, k - 1);
      LeafCutsAscend(a, cuts, k - 1, k);
      assert trees[..k] == trees[..k - 1] + [trees[k - 1]];
      FlatConcat(trees[..k - 1], [trees[k - 1]]);
      FlatOne(trees[k - 1]);
      LeafContents(trees[k - 1]);
      assert a[..cuts[k]] == a[..cuts[k - 1]] + a[cuts[k - 1]..cuts[k]];
    }
  }

  lemma LeafContents(t: Tree)
    requires t.Leaf?
    ensures Contents(t) == t.es
  {
  }

  // ---------------------------------------------------------------- filling leaves

  /** Finished leaves: leaf j holds the entries from cut j up to cut j + 1. */
  ghost predicate ClosedLeaves(mem: Memory, start: Ptr, a: seq<Pair>, cuts: seq<nat>) {
    && |cuts| >= 1 && cuts[0] == 0
    && (forall j :: 0 <= j < |cuts| - 1 ==> cuts[j] + 1 <= cuts[j + 1] <= cuts[j] + 6)
    && (forall j :: 0 <= j < |cuts| - 1 ==>
       Slot(start, j) in mem && LeafCellIs(mem[Slot(start, j)], a, cuts[j], cuts[j + 1]))
  }

  lemma NoLeaves(mem: Memory, start: Ptr, a: seq<Pair>)
    ensures ClosedLeaves(mem, start, a, [0])
  {
  }

  /** The current leaf is finished. */
  lemma CloseLeaf(mem: Memory, start: Ptr, a: seq<Pair>, cuts: seq<nat>, end: nat)
    requires ClosedLeaves(mem, start, a, cuts) && cuts[|cuts| - 1] + 1 <= end <= cuts[|cuts| - 1] + 6
    requires Slot(start, |cuts| - 1) in mem && LeafCellIs(mem[Slot(start, |cuts| - 1)], a, cuts[|cuts| - 1], end)
    ensures ClosedLeaves(mem, start, a, cuts + [end])
  {
    hide LeafCellIs;
    var cuts' := cuts + [end];
    forall j | 0 <= j < |cuts'| - 1 ensures cuts'[j] + 1 <= cuts'[j + 1] <= cuts'[j] + 6 {
      if j < |cuts| - 1 { assert cuts'[j] == cuts[j] && cuts'[j + 1] == cuts[j + 1]; }
    }
    forall j | 0 <= j < |cuts'| - 1 ensures Slot(start, j) in mem
        && LeafCellIs(mem[Slot(start, j)], a, cuts'[j], cuts'[j + 1]) {
      if j < |cuts| - 1 { assert cuts'[j] == cuts[j] && cuts'[j + 1] == cuts[j + 1]; }
    }
  }

  /** Writing the current leaf leaves the finished ones alone. */
  lemma ClosedPut(mem: Memory, start: Ptr, a: seq<Pair>, cuts: seq<nat>, j: nat, c: Cell)
    requires ClosedLeaves(mem, start, a, cuts) && j >= |cuts| - 1
    ensures ClosedLeaves(mem[Slot(start, j) := c], start, a, cuts)
  {
    hide LeafCellIs;
  }

  lemma ClosedAll(mem: Memory, start: Ptr, a: seq<Pair>, cuts: seq<nat>)
    requires ClosedLeaves(mem, start, a, cuts) && |cuts| >= 2 && cuts[|cuts| - 1] == |a|
    ensures LeafCuts(a, cuts) && LeafCells(mem, start, a, cuts)
  {
    hide LeafCellIs;
  }

  /** The current leaf holds the entries from `from` up to `end`. */
  lemma AppendEntry(c: Cell, a: seq<Pair>, from: nat, i: nat)
    requires LeafCellIs(c, a, from, i) && i < |a| && c.num < 6
    ensures c.LeafCell? && |c.entries| == 6 && LeafCellIs(LeafCell(c.num + 1, c.entries[c.num := a[i]]), a, from, i + 1)
  {
    var e := c.entries[c.num := a[i]];
    assert e[..c.num + 1] == c.entries[..c.num] + [a[i]];
    assert a[from..i + 1] == a[from..i] + [a[i]];
  }

  lemma EmptyLeaf(entries: seq<Pair>, a: seq<Pair>, from: nat)
    requires |entries| == 6 && from <= |a|
    ensures LeafCellIs(LeafCell(0, entries), a, from, from)
  {
  }

  lemma LeafCellNum(c: Cell, a: seq<Pair>, from: nat, end: nat)
    requires LeafCellIs(c, a, from, end)
    ensures c.LeafCell? && |c.entries| == 6 && c.num == end - from && c.num <= 6
  {
  }

  lemma LinkedRun(next: Links, prev: Links, start: Ptr, n: nat)
    requires n >= 1 && start != NULL && (forall j :: 0 <= j < n ==> Slot(start, j) in next && Slot(start, j) in prev)
    requires forall k :: 0 < k < n ==> prev[Slot(start, k)] == Slot(start, k - 1)
    requires forall k :: 0 <= k < n - 1 ==> next[Slot(start, k)] == Slot(start, k + 1)
    requires start in prev && prev[start] == NULL && next[Slot(start, n - 1)] == NULL
    ensures Linked(next, prev, Run(start, n))
  {
    assert Slot(start, 0) == start;
  }

  // ---------------------------------------------------------------- small facts for the loops

  lemma LevelInMemory(mem: Memory, start: Ptr, trees: seq<Tree>, tops: seq<int>, h: nat)
    requires Level(mem, start, trees, tops, h)
    ensures forall j :: 0 <= j < |trees| ==> Slot(start, j) in mem
  {
    hide *;
    LevelParts(mem, start, trees, tops, h);
    forall j | 0 <= j < |trees| ensures Slot(start, j) in mem {
      HoldsParts(mem, Run(start, |trees|), trees, j);
    }
  }

  lemma HighNotNull(p: Ptr)
    requires p > 0
    ensures p != NULL
  {
  }

  lemma NoSpans(mem: Memory, low: Ptr, up: Ptr, tops: seq<int>)
    ensures SpanCells(mem, low, up, tops, [0])
  {
  }

  lemma SpanIs(c: Cell, low: Ptr, tops: seq<int>, from: nat, end: nat)
    requires from + 2 <= end <= |tops| && end <= from + 14
    requires c.InnerCell? && |c.keys| == 14 && c.num == end - from - 1 && c.first == Slot(low, from)
    requires forall k :: 0 <= k < end - from && from + k < |tops| - 1 ==> c.keys[k] == tops[from + k]
    ensures SpanCell(c, low, tops, from, end)
  {
  }

  lemma SpanAt(mem: Memory, low: Ptr, up: Ptr, tops: seq<int>, cuts: seq<nat>, j: nat)
    requires SpanCells(mem, low, up, tops, cuts) && j < |cuts| - 1
    ensures Slot(up, j) in mem && cuts[j] + 2 <= cuts[j + 1] <= |tops| && cuts[j + 1] <= cuts[j] + 14
    ensures var c := mem[Slot(up, j)];
      && c.InnerCell? && |c.keys| == 14 && c.num == cuts[j + 1] - cuts[j] - 1
      && forall k :: 0 <= k < cuts[j + 1] - cuts[j] && cuts[j] + k < |tops| - 1 ==> c.keys[k] == tops[cuts[j] + k]
  {
    assert SpanCell(mem[Slot(up, j)], low, tops, cuts[j], cuts[j + 1]);
  }

  lemma SlotBeyond(up: Ptr, j: nat)
    ensures Slot(up, j) >= up
    ensures forall i: nat :: i != j ==> Slot(up, i) != Slot(up, j)
  {
  }

  lemma LeftOver(k: nat, w: nat)
    ensures k * w >= 0
  {
  }

  // ---------------------------------------------------------------- counting

  /** Full groups of w and the rest. */
  lemma GroupCount(n: nat, w: nat)
    requires n >= 2 && w >= 3
    ensures var m, r := (n + w - 1) / w, n % w;
      && m >= 1 && m < n && r < w
      && n == (if r == 0 then m else m - 1) * w + r
      && (r == 1 ==> m >= 2)
  {
    DivMod(n, w);
    CeilDiv(n, w, n / w, n % w);
    GroupSize(n, w, n / w, n % w);
  }

  lemma CeilDiv(n: nat, w: nat, q: nat, r: nat)
    requires w > 0 && n == q * w + r && r < w
    ensures (n + w - 1) / w == if r == 0 then q else q + 1
  {
    OneGroupLess(q + 1, w);
    DivIs(n + w - 1, w, if r == 0 then q else q + 1, if r == 0 then w - 1 else r - 1);
  }

  lemma DivMod(n: nat, w: nat)
    requires w > 0
    ensures n == (n / w) * w + n % w && n % w < w
  {
  }

  lemma GroupSize(n: nat, w: nat, q: nat, r: nat)
    requires n >= 2 && w >= 3 && n == q * w + r && r < w
    ensures q <= n && (r == 0 ==> 0 < q < n) && (r > 0 ==> q + 1 < n || (q == 0 && n == r)) && (r == 1 ==> q > 0)
  {
    Times(3, w, q);
    if q == 0 { assert q * w == 0; }
  }

  lemma Times(a: nat, b: nat, k: nat)
    requires a <= b
    ensures k * a <= k * b
  {
  }

  lemma DivIs(x: nat, w: nat, q: nat, r: nat)
    requires w > 0 && x == q * w + r && r < w
    ensures x / w == q
  {
    var d := x / w;
    DivMod(x, w);
    OneGroupLess(d + 1, w);
    OneGroupLess(q + 1, w);
    if d < q {
      Times(d + 1, q, w);
    } else if d > q {
      Times(q + 1, d, w);
    }
  }

  lemma OneGroupLess(k: nat, w: nat)
    requires k > 0
    ensures k * w == (k - 1) * w + w
  {
  }

  lemma LeafCount(n: nat, w: nat, m: nat)
    requires w > 0 && m * w < n
    ensures m < (n + w - 1) / w
    ensures n <= m * w + w ==> m + 1 == (n + w - 1) / w
  {
    OneGroupLess(m + 1, w);
    if n <= m * w + w {
      DivIs(n + w - 1, w, m + 1, n - 1 - m * w);
    } else {
      MoreGroups(n + w - 1, w, m + 1);
    }
  }

  lemma MoreGroups(x: nat, w: nat, m: nat)
    requires w > 0 && m * w <= x
    ensures m <= x / w
  {
    DivMod(x, w);
    OneGroupLess(x / w + 1, w);
    if m > x / w { Times(x / w + 1, m, w); }
  }

  // ---------------------------------------------------------------- how full the nodes are

  /** The kids of a level, from left to right. */
  ghost function AllKids(trees: seq<Tree>): seq<Tree> {
    if trees == [] then [] else (if trees[0].Node? then trees[0].kids else []) + AllKids(trees[1..])
  }

  /** Inner nodes over n nodes: as few as can be, with iUpper separators each but for the last two; the last but one
      gives up a separator if just one node would be left for the last. */
  ghost predicate NodesFilled(trees: seq<Tree>, iUpper: nat, n: nat) {
    && |trees| == (n + iUpper) / (iUpper + 1)
    && (forall j :: 0 <= j < |trees| ==> trees[j].Node? && 1 <= |trees[j].keys| <= iUpper)
    && (forall j :: 0 <= j < |trees| - 2 ==> |trees[j].keys| == iUpper)
    && (|trees| >= 2 ==>
        |trees[|trees| - 2].keys| == if n % (iUpper + 1) == 1 then iUpper - 1 else iUpper)
  }

  /** Leaves for n entries: lUpper each but for the last. */
  ghost predicate LeavesFilled(trees: seq<Tree>, lUpper: nat, n: nat)
    requires lUpper > 0
  {
    && |trees| == (n + lUpper - 1) / lUpper
    && (forall j :: 0 <= j < |trees| ==> trees[j].Leaf? && 1 <= |trees[j].es| <= lUpper)
    && (forall j :: 0 <= j < |trees| - 1 ==> |trees[j].es| == lUpper)
  }

  /** All levels from this one of height h down to the leaves are filled like that. */
  ghost predicate Filled(trees: seq<Tree>, iUpper: nat, lUpper: nat, n: nat, h: nat)
    requires lUpper > 0
    decreases h
  {
    if h == 0 then LeavesFilled(trees, lUpper, n)
    else NodesFilled(trees, iUpper, |AllKids(trees)|) && Filled(AllKids(trees), iUpper, lUpper, n, h - 1)
  }

  /** The cuts of a level of n nodes into groups of w, and a rest. */
  ghost predicate GroupsOf(cuts: seq<nat>, n: nat, w: nat)
    requires w > 0
  {
    && |cuts| >= 2 && |cuts| - 1 == (n + w - 1) / w
    && (forall j :: 0 <= j < |cuts| - 3 ==> cuts[j + 1] == cuts[j] + w)
    && (|cuts| >= 3 ==> cuts[|cuts| - 2] == cuts[|cuts| - 3] + if n % w == 1 then w - 1 else w)
    && cuts[|cuts| - 1] <= cuts[|cuts| - 2] + w
  }

  ghost predicate LeafGroups(cuts: seq<nat>, n: nat, w: nat)
    requires w > 0
  {
    && |cuts| >= 2 && |cuts| - 1 == (n + w - 1) / w
    && (forall j :: 0 <= j < |cuts| - 2 ==> cuts[j + 1] == cuts[j] + w)
    && cuts[|cuts| - 1] <= cuts[|cuts| - 2] + w
  }

  lemma {:induction false} AllKidsConcat(x: seq<Tree>, y: seq<Tree>)
    ensures AllKids(x + y) == AllKids(x) + AllKids(y)
    decreases |x|
  {
    if x == [] {
      assert x + y == y;
    } else {
      assert (x + y)[0] == x[0] && (x + y)[1..] == x[1..] + y;
      AllKidsConcat(x[1..], y);
    }
  }

  lemma AllKidsOne(t: Tree)
    requires t.Node?
    ensures AllKids([t]) == t.kids
  {
    assert [t][1..] == [];
  }

  lemma {:induction false} KidsOfAbove(start: Ptr, trees: seq<Tree>, tops: seq<int>, cuts: seq<nat>, k: nat)
    requires |trees| == |tops| && Cuts(cuts, |trees|) && k < |cuts|
    ensures cuts[k] <= |trees| && AllKids(AllAbove(start, trees, tops, cuts)[..k]) == trees[..cuts[k]]
    decreases k
  {
    hide *;
    var ups := AllAbove(start, trees, tops, cuts);
    CutsEnd(cuts, |trees|);
    CutsAscend(cuts, |trees|, k, |cuts| - 1);
    if k == 0 {
      CutsStep(cuts, |trees|, 0);
      assert ups[..0] == [] && trees[..cuts[0]] == [];
      NoKids();
    } else {
      KidsOfAbove(start, trees, tops, cuts, k - 1);
      AboveAt(start, trees, tops, cuts, k - 1);
      var c, d := cuts[k - 1], cuts[k];
      assert ups[..k] == ups[..k - 1] + [ups[k - 1]];
      AllKidsConcat(ups[..k - 1], [ups[k - 1]]);
      AboveParts(start, trees, tops, c, d);
      AllKidsOne(ups[k - 1]);
      assert trees[..d] == trees[..c] + trees[c..d];
    }
  }

  lemma NoKids()
    ensures AllKids([]) == []
  {
  }

  lemma AboveParts(start: Ptr, trees: seq<Tree>, tops: seq<int>, c: nat, d: nat)
    requires c + 2 <= d <= |trees| == |tops|
    ensures var t := Above(start, trees, tops, c, d); t.Node? && t.kids == trees[c..d] && |t.keys| == d - c - 1
  {
  }

  /** A level over a filled one, cut into groups of iUpper + 1, is filled. */
  lemma AboveFilled(start: Ptr, trees: seq<Tree>, tops: seq<int>, cuts: seq<nat>, iUpper: nat, lUpper: nat, n: nat,
                    h: nat)
    requires |trees| == |tops| && Cuts(cuts, |trees|) && GroupsOf(cuts, |trees|, iUpper + 1) && lUpper > 0
      && iUpper >= 2
    requires Filled(trees, iUpper, lUpper, n, h)
    ensures Filled(AllAbove(start, trees, tops, cuts), iUpper, lUpper, n, h + 1)
  {
    hide Filled, Above, Cuts, AllAbove, NodesFilled, AllKids;
    var ups := AllAbove(start, trees, tops, cuts);
    CutsEnd(cuts, |trees|);
    KidsOfAbove(start, trees, tops, cuts, |cuts| - 1);
    assert ups[..|cuts| - 1] == ups && trees[..|trees|] == trees;
    forall j | 0 <= j < |ups| ensures ups[j].Node? && |ups[j].keys| >= 1 && cuts[j + 1] == cuts[j] + |ups[j].keys| + 1 {
      AboveAt(start, trees, tops, cuts, j);
      AboveParts(start, trees, tops, cuts[j], cuts[j + 1]);
    }
    GroupSizes(ups, cuts, iUpper, |trees|);
    FilledAbove(ups, trees, iUpper, lUpper, n, h);
  }

  lemma GroupSizes(ups: seq<Tree>, cuts: seq<nat>, iUpper: nat, n: nat)
    requires GroupsOf(cuts, n, iUpper + 1) && |ups| == |cuts| - 1 && iUpper >= 2
    requires forall j :: 0 <= j < |ups| ==>
      ups[j].Node? && |ups[j].keys| >= 1 && cuts[j + 1] == cuts[j] + |ups[j].keys| + 1
    ensures NodesFilled(ups, iUpper, n)
  {
    forall j | 0 <= j < |ups| ensures ups[j].Node? && 1 <= |ups[j].keys| <= iUpper {
      if j < |ups| - 2 {
        assert cuts[j + 1] == cuts[j] + iUpper + 1;
      } else if j == |ups| - 2 {
        assert cuts[|cuts| - 2] == cuts[j + 1] && cuts[|cuts| - 3] == cuts[j];
      } else {
        assert cuts[|cuts| - 1] == cuts[j + 1] && cuts[|cuts| - 2] == cuts[j];
      }
    }
    forall j | 0 <= j < |ups| - 2 ensures |ups[j].keys| == iUpper {
      assert cuts[j + 1] == cuts[j] + iUpper + 1;
    }
    if |ups| >= 2 {
      assert cuts[|cuts| - 2] == cuts[|ups| - 1] && cuts[|cuts| - 3] == cuts[|ups| - 2];
    }
  }

  lemma FilledAbove(ups: seq<Tree>, trees: seq<Tree>, iUpper: nat, lUpper: nat, n: nat, h: nat)
    requires AllKids(ups) == trees && NodesFilled(ups, iUpper, |trees|) && lUpper > 0
    requires Filled(trees, iUpper, lUpper, n, h)
    ensures Filled(ups, iUpper, lUpper, n, h + 1)
  {
    hide NodesFilled, AllKids;
  }

  lemma LeafTreesFilled(a: seq<Pair>, cuts: seq<nat>, iUpper: nat, lUpper: nat)
    requires LeafCuts(a, cuts) && lUpper > 0 && LeafGroups(cuts, |a|, lUpper)
    ensures Filled(LeafTrees(a, cuts), iUpper, lUpper, |a|, 0)
  {
    hide LeafCuts, LeafGroups, LeafTrees, LeavesFilled;
    var trees := LeafTrees(a, cuts);
    forall j | 0 <= j < |trees| ensures trees[j].Leaf? && |trees[j].es| >= 1 && cuts[j + 1] == cuts[j] + |trees[j].es| {
      LeafSize(a, cuts, j);
    }
    LeafSizes(trees, cuts, lUpper, |a|);
  }

  lemma LeafSize(a: seq<Pair>, cuts: seq<nat>, j: nat)
    requires LeafCuts(a, cuts) && j < |cuts| - 1
    ensures var t := LeafTrees(a, cuts)[j]; t.Leaf? && |t.es| >= 1 && cuts[j + 1] == cuts[j] + |t.es|
  {
    LeafCutsAscend(a, cuts, j, j + 1);
    LeafCutsAscend(a, cuts, j + 1, j + 1);
  }

  lemma LeafSizes(trees: seq<Tree>, cuts: seq<nat>, lUpper: nat, n: nat)
    requires lUpper > 0 && LeafGroups(cuts, n, lUpper) && |trees| == |cuts| - 1
    requires forall j :: 0 <= j < |trees| ==>
      trees[j].Leaf? && |trees[j].es| >= 1 && cuts[j + 1] == cuts[j] + |trees[j].es|
    ensures LeavesFilled(trees, lUpper, n)
  {
    forall j | 0 <= j < |trees| ensures 1 <= |trees[j].es| <= lUpper {
      if j < |trees| - 1 {
        assert cuts[j + 1] == cuts[j] + lUpper;
      } else {
        assert cuts[|cuts| - 1] == cuts[j + 1] && cuts[|cuts| - 2] == cuts[j];
      }
    }
    forall j | 0 <= j < |trees| - 1 ensures |trees[j].es| == lUpper {
      assert cuts[j + 1] == cuts[j] + lUpper;
    }
  }

  /** What that means for one level of a filled tree: depth d below the root. */
  ghost function Row(trees: seq<Tree>, d: nat): seq<Tree>
    decreases d
  {
    if d == 0 then trees else Row(AllKids(trees), d - 1)
  }

  lemma {:induction false} FilledRow(trees: seq<Tree>, iUpper: nat, lUpper: nat, n: nat, h: nat, d: nat)
    requires lUpper > 0 && Filled(trees, iUpper, lUpper, n, h) && d <= h
    ensures d < h ==> NodesFilled(Row(trees, d), iUpper, |Row(trees, d + 1)|)
    ensures d == h ==> LeavesFilled(Row(trees, d), lUpper, n)
    decreases d
  {
    hide NodesFilled, LeavesFilled, AllKids;
    if d > 0 {
      FilledRow(AllKids(trees), iUpper, lUpper, n, h - 1, d - 1);
    } else if h > 0 {
      assert Row(trees, 1) == Row(AllKids(trees), 0);
    }
  }
}
