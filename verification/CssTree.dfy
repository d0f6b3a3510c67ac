/** Full CSS-trees: a 17-way directory laid out as an implicit heap over a sorted array.

    Nodes are numbered breadth first, node n having children 17n+1 .. 17n+17.  The first
    `nInternal` nodes are directory nodes with 16 keys each; every other node is a leaf, that
    is, a block of eight array entries.  Leaves at depth k ("deep" leaves) take the blocks from
    the front of the array, and the leaves left at depth k-1 ("shallow" leaves) take the
    remaining blocks from its tail. */
module CssTree {
  import opened SortedPairs

  function Pow17(k: nat): (p: nat)
    ensures p >= 1
  {
    if k == 0 then 1 else 17 * Pow17(k - 1)
  }

  /** The least exponent, from k on, whose power of 17 reaches the number of blocks. */
  function LeastExponent(blocks: nat, k: nat): (e: nat)
    ensures e >= k && Pow17(e) >= blocks
    ensures e > k ==> Pow17(e - 1) < blocks
    decreases blocks - Pow17(k)
  {
    if Pow17(k) >= blocks then k else LeastExponent(blocks, k + 1)
  }

  /** Dimensions of a directory: `blocks` leaf blocks, the number `thres` of the first deep leaf and
      `prev` of the first node one level up (0 without a directory), `shallow` leaves on that level,
      and `dangling` unused leaf numbers after the last deep leaf. */
  datatype Shape = Shape(blocks: nat, thres: nat, prev: nat, shallow: nat, dangling: nat) {
    function Internal(): int { thres - shallow }

    function Deep(): int { blocks - shallow }

    /** `thres` levels hold 16*thres+1 == 17^k leaf numbers; one level fewer would not do. */
    ghost predicate Valid() {
      && blocks >= 1
      && dangling < 16
      && 16 * thres + 1 == blocks + 16 * shallow + dangling
      && (thres == 0 ==> blocks == 1)
      && (thres > 0 ==> 17 * prev + 1 == thres && 16 * prev + 1 < blocks)
    }
  }

  lemma {:induction false} PowerOf17(k: nat)
    ensures Pow17(k) % 16 == 1
    ensures k > 0 ==> (Pow17(k) - 1) / 16 == 17 * ((Pow17(k - 1) - 1) / 16) + 1
  {
    if k > 0 {
      PowerOf17(k - 1);
      var m := SixteenTimes(Pow17(k - 1));
      OneMore(17 * m + 1);
      assert Pow17(k) == 16 * (17 * m + 1) + 1;
    }
  }

  lemma SixteenTimes(p: nat) returns (m: nat)
    requires p % 16 == 1
    ensures p == 16 * m + 1 && (p - 1) / 16 == m
  {
    m := p / 16;
  }

  lemma OneMore(m: nat)
    ensures (16 * m + 1) % 16 == 1 && (16 * m + 1 - 1) / 16 == m
  {
  }

  /** st is the first node number of a level: the level below it starts at 17*st+1. */
  ghost predicate IsLevel(thres: nat, st: nat)
    decreases thres - st
  {
    st == thres || (st < thres && IsLevel(thres, 17 * st + 1))
  }

  lemma {:induction false} LevelsOfPower(k: nat, d: nat)
    requires d <= k
    ensures (Pow17(d) - 1) / 16 <= (Pow17(k) - 1) / 16
    ensures IsLevel((Pow17(k) - 1) / 16, (Pow17(d) - 1) / 16)
    decreases k - d
  {
    if d < k {
      LevelsOfPower(k, d + 1);
      PowerOf17(d + 1);
    }
  }

  function ShapeOf(blocks: nat): (s: Shape)
    requires blocks >= 1
    ensures s.Valid() && s.blocks == blocks
    ensures IsLevel(s.thres, 0)
  {
    LevelsOfPower(LeastExponent(blocks, 0), 0);
    var k := LeastExponent(blocks, 0);
    var p := Pow17(k);
    PowerOf17(k);
    Shape(blocks, (p - 1) / 16, if k == 0 then 0 else (Pow17(k - 1) - 1) / 16, (p - blocks) / 16, (p - blocks) % 16)
  }

  lemma ShapeBounds(s: Shape)
    requires s.Valid()
    ensures s.Internal() >= 0 && s.Deep() >= 1
    ensures s.thres > 0 ==> s.prev < s.Internal() <= s.thres
    ensures s.thres == 0 ==> s.Internal() == 0 && s.shallow == 0 && s.dangling == 0
    ensures s.thres > 0 ==> 17 * s.Internal() == s.thres + s.Deep() + s.dangling - 1
  {
  }

  // ----- leaves of a subtree, and the order in which leaves follow one another -----

  function Rightmost(s: Shape, n: nat): nat
    decreases s.Internal() - n
  {
    if n < s.Internal() then Rightmost(s, 17 * n + 17) else n
  }

  function Leftmost(s: Shape, n: nat): nat
    decreases s.Internal() - n
  {
    if n < s.Internal() then Leftmost(s, 17 * n + 1) else n
  }

  ghost predicate AtLevel(s: Shape, n: nat, st: nat) {
    IsLevel(s.thres, st) && st <= n <= 17 * st
  }

  /** Rank of a leaf in the left-to-right order of leaves, dangling ones included. */
  function Rank(s: Shape, leaf: nat): int {
    if leaf >= s.thres then leaf - s.thres else leaf - s.Internal() + s.Deep() + s.dangling
  }

  /** The number of array blocks that stand left of a rank. */
  function BlocksBefore(s: Shape, rank: int): int {
    if rank <= s.Deep() then rank else if rank <= s.Deep() + s.dangling then s.Deep() else rank - s.dangling
  }

  /** The block whose last key represents a leaf in the directory. */
  function LastBlock(s: Shape, leaf: nat): int {
    BlocksBefore(s, Rank(s, leaf) + 1) - 1
  }

  lemma {:induction false} LevelsAboveLeaves(s: Shape, st: nat)
    requires s.Valid() && IsLevel(s.thres, st) && st < s.thres
    ensures st <= s.prev && (st < s.prev ==> 17 * st < s.prev)
    decreases s.thres - st
  {
    if 17 * st + 1 < s.thres { LevelsAboveLeaves(s, 17 * st + 1); }
  }

  /** Neighbouring subtrees of one level meet without a gap: the leaf after the last leaf of
      subtree n is the first leaf of subtree n+1, also where deep leaves give way to shallow. */
  lemma {:induction false} NeighboursMeet(s: Shape, n: nat, st: nat)
    requires s.Valid() && AtLevel(s, n, st) && AtLevel(s, n + 1, st)
    ensures Rank(s, Leftmost(s, n + 1)) == Rank(s, Rightmost(s, n)) + 1
    decreases s.thres - st
  {
    ShapeBounds(s);
    if n + 1 < s.Internal() {
      NeighboursMeet(s, 17 * n + 17, 17 * st + 1);
    } else if st < s.thres {
      LevelsAboveLeaves(s, st);
    }
  }

  // ----- the directory -----

  /** Node numbers that occur in a descent: the root, and children of directory nodes. */
  ghost predicate Reachable(s: Shape, n: nat) {
    n <= 17 * s.Internal()
  }

  lemma LeafRank(s: Shape, leaf: nat)
    requires s.Valid() && Reachable(s, leaf) && leaf >= s.Internal()
    ensures 0 <= Rank(s, leaf) < s.blocks + s.dangling
    ensures 0 <= LastBlock(s, leaf) < s.blocks
  {
    DeepLeafBound(s, leaf);
    RankBounds(s, leaf);
  }

  lemma DeepLeafBound(s: Shape, leaf: nat)
    requires s.Valid() && Reachable(s, leaf)
    ensures leaf - s.thres < s.Deep() + s.dangling && s.Deep() >= 1
  {
    ShapeBounds(s);
  }

  lemma RankBounds(s: Shape, leaf: nat)
    requires leaf >= s.Internal() && leaf - s.thres < s.Deep() + s.dangling && s.Deep() >= 1
    ensures 0 <= Rank(s, leaf) < s.blocks + s.dangling
    ensures 0 <= LastBlock(s, leaf) < s.blocks
  {
  }

  lemma {:induction false} RightmostIsLeaf(s: Shape, n: nat)
    requires s.Valid() && Reachable(s, n)
    ensures Rightmost(s, n) >= s.Internal() && Reachable(s, Rightmost(s, n))
    ensures 0 <= LastBlock(s, Rightmost(s, n)) < s.blocks
    decreases s.Internal() - n
  {
    if n < s.Internal() {
      RightmostIsLeaf(s, 17 * n + 17);
    } else {
      LeafRank(s, n);
    }
  }

  /** The largest key in the subtree of a node. */
  ghost function KeyUnder(s: Shape, a: seq<Pair>, n: nat): int
    requires s.Valid() && |a| == 8 * s.blocks && Reachable(s, n)
  {
    RightmostIsLeaf(s, n);
    a[8 * LastBlock(s, Rightmost(s, n)) + 7].key
  }

  /** The key that directory slot j holds: the largest key under child j%16 of node j/16. */
  ghost function SlotKey(s: Shape, a: seq<Pair>, j: nat): int
    requires s.Valid() && |a| == 8 * s.blocks && j < 16 * s.Internal()
  {
    KeyUnder(s, a, 17 * (j / 16) + j % 16 + 1)
  }

  ghost predicate IsDirectory(s: Shape, a: seq<Pair>, b: seq<int>) {
    && s.Valid() && |a| == 8 * s.blocks
    && |b| == 16 * s.Internal()
    && forall j :: 0 <= j < |b| ==> b[j] == SlotKey(s, a, j)
  }

  method Dimensions(num: nat) returns (x: nat, nonLeaf: nat, thres: nat)
    requires num > 0 && num % 8 == 0
    ensures ShapeOf(num / 8).shallow == x && ShapeOf(num / 8).thres == thres
    ensures ShapeOf(num / 8).Internal() == nonLeaf
  {
    var B := (num + 7) / 8;
    assert B == num / 8;
    var k := LeastExponent(B, 0);
    var exp17k := Pow17(k);
    x := (exp17k - B) / 16;
    thres := (exp17k - 1) / 16;
    ShapeBounds(ShapeOf(B));
    nonLeaf := (exp17k - 1) / 16 - x;
  }

  method BulkLoad(num: nat, a1: array<Pair>) returns (a2: array<int>, nInternal: int, thres: int)
    requires a1.Length == num > 0 && num % 8 == 0
    ensures fresh(a2)
    ensures var s := ShapeOf(num / 8);
      IsDirectory(s, a1[..], a2[..]) && nInternal == s.Internal() && thres == s.thres
  {
    var x;
    x, nInternal, thres := Dimensions(num);
    ghost var s := ShapeOf(num / 8);
    a2 := new int[16 * nInternal];
    hide *;
    var i := nInternal - 1;
    while i >= 0
      invariant -1 <= i < nInternal
      invariant forall t :: 16 * i + 15 < t < a2.Length ==> a2[t] == SlotKey(s, a1[..], t)
    {
      var j := i * 16 + 15;
      while j >= i * 16
        invariant 16 * i - 1 <= j <= 16 * i + 15
        invariant forall t :: j < t < a2.Length ==> a2[t] == SlotKey(s, a1[..], t)
      {
        a2[j] := DirectoryKey(s, num, a1, i, j, x, nInternal, thres);
        j := j - 1;
      }
      i := i - 1;
    }
    DirectoryIs(s, a1[..], a2[..]);
  }

  lemma DirectoryIs(s: Shape, a: seq<Pair>, b: seq<int>)
    requires s.Valid() && |a| == 8 * s.blocks && |b| == 16 * s.Internal()
    requires forall j :: 0 <= j < |b| ==> b[j] == SlotKey(s, a, j)
    ensures IsDirectory(s, a, b)
  {
    hide SlotKey;
  }

  /** One slot of the directory, found by walking down to the last leaf of its subtree. */
  method DirectoryKey(ghost s: Shape, num: nat, a1: array<Pair>, i: nat, j: nat, x: nat, nonLeaf: nat, thres: nat)
    returns (key: int)
    requires s.Valid() && a1.Length == num == 8 * s.blocks
    requires x == s.shallow && nonLeaf == s.Internal() && thres == s.thres
    requires i < nonLeaf && 16 * i <= j < 16 * i + 16
    ensures key == SlotKey(s, a1[..], j)
  {
    var child := 17 * i + j % 16 + 1;
    ghost var first := child;
    SlotOfKid(s, a1[..], i, j);
    hide *;
    while child < nonLeaf
      invariant Reachable(s, child) && KeyUnder(s, a1[..], child) == KeyUnder(s, a1[..], first)
      decreases nonLeaf - child
    {
      SameLastKey(s, a1[..], child);
      child := 17 * child + 17;
    }
    LeafKey(s, a1[..], child);
    var l := (child - thres) * 8;
    if l < 0 {
      l := l + num;
      key := a1[l + 7].key;
    } else if l < num - x * 8 {
      key := a1[l + 7].key;
    } else {
      key := a1[num - x * 8 - 1].key;
    }
  }

  lemma SlotOfKid(s: Shape, a: seq<Pair>, i: nat, j: nat)
    requires s.Valid() && |a| == 8 * s.blocks && i < s.Internal() && 16 * i <= j < 16 * i + 16
    ensures j < 16 * s.Internal() && Reachable(s, 17 * i + j % 16 + 1)
    ensures SlotKey(s, a, j) == KeyUnder(s, a, 17 * i + j % 16 + 1)
  {
    hide KeyUnder;
    assert j / 16 == i;
  }

  /** The last key of the block that a leaf stands for: from the tail of the array for a leaf before the deepest
      level, from its head for a deep leaf, and the last deep one for a dangling leaf number. */
  lemma LeafKey(s: Shape, a: seq<Pair>, leaf: nat)
    requires s.Valid() && |a| == 8 * s.blocks && Reachable(s, leaf) && leaf >= s.Internal()
    ensures var l := 8 * (leaf - s.thres);
      && 8 * s.shallow < |a| && (l < 0 ==> 0 <= l + |a| && l + |a| + 7 < |a|)
         && (0 <= l < |a| - 8 * s.shallow ==> l + 7 < |a|)
      && KeyUnder(s, a, leaf) == if l < 0 then a[l + |a| + 7].key
                                 else if l < |a| - 8 * s.shallow then a[l + 7].key
                                 else a[|a| - 8 * s.shallow - 1].key
  {
    ShapeBounds(s);
    LeafRank(s, leaf);
  }

  // ----- search -----

  /** The hard-coded comparison tree over the 16 keys of a directory node at b[p..p+16]. */
  method Branch(b: array<int>, p: nat, key: int) returns (l: nat)
    requires p + 16 <= b.Length
    requires forall i, j :: p <= i <= j < p + 16 ==> b[i] <= b[j]
    ensures 1 <= l <= 17
    ensures forall i :: p <= i < p + l - 1 ==> b[i] < key
    ensures l < 17 ==> key <= b[p + l - 1]
  {
    if b[p + 8] >= key {
      if b[p + 3] >= key {
        if b[p + 1] >= key {
          if b[p] >= key { l := 1; } else { l := 2; }
        } else {
          if b[p + 2] >= key { l := 3; } else { l := 4; }
        }
      } else {
        if b[p + 5] >= key {
          if b[p + 4] >= key { l := 5; } else { l := 6; }
        } else {
          if b[p + 6] >= key { l := 7; } else if b[p + 7] >= key { l := 8; } else { l := 9; }
        }
      }
    } else {
      if b[p + 12] >= key {
        if b[p + 10] >= key {
          if b[p + 9] >= key { l := 10; } else { l := 11; }
        } else {
          if b[p + 11] >= key { l := 12; } else { l := 13; }
        }
      } else {
        if b[p + 14] >= key {
          if b[p + 13] >= key { l := 14; } else { l := 15; }
        } else {
          if b[p + 15] >= key { l := 16; } else { l := 17; }
        }
      }
    }
  }

  /** The hard-coded comparison tree over the 8 entries of a leaf block at a[p..p+8]. */
  method BranchLeaf(a: array<Pair>, p: nat, key: int) returns (l: nat)
    requires p + 8 <= a.Length && Sorted(a[..])
    ensures l <= 8
    ensures forall i :: p <= i < p + l ==> a[i].key < key
    ensures l < 8 ==> key <= a[p + l].key
  {
    assert forall i, j :: 0 <= i <= j < a.Length ==> a[..][i].key <= a[..][j].key;
    assert forall i, j :: 0 <= i <= j < a.Length ==> a[i].key <= a[j].key;
    if key <= a[p + 3].key {
      if key <= a[p + 1].key {
        if key <= a[p].key { l := 0; } else { l := 1; }
      } else {
        if key <= a[p + 2].key { l := 2; } else { l := 3; }
      }
    } else {
      if key <= a[p + 5].key {
        if key <= a[p + 4].key { l := 4; } else { l := 5; }
      } else {
        if key <= a[p + 6].key { l := 6; } else if key <= a[p + 7].key { l := 7; } else { l := 8; }
      }
    }
  }

  /** What a sorted array answers to a lookup: the tid of its leftmost entry with the key, else 0. */
  ghost predicate IsLeftmostMatch(a: seq<Pair>, key: int, tid: int) {
    if exists i :: 0 <= i < |a| && a[i].key == key
    then exists i :: 0 <= i < |a| && a[i] == Pair(key, tid) && forall j :: 0 <= j < i ==> a[j].key < key
    else tid == 0
  }

  /** The descent invariant: everything left of subtree n is too small, ... */
  ghost predicate LeftTooSmall(s: Shape, a: seq<Pair>, n: nat, key: int) {
    forall i :: 0 <= i < |a| && i < 8 * BlocksBefore(s, Rank(s, Leftmost(s, n))) ==> a[i].key < key
  }

  /** ... and its largest key is not, unless the key is above the whole array: then the descent
      stays on the right edge, whose nodes are the last of their levels. */
  ghost predicate Covers(s: Shape, a: seq<Pair>, n: nat, st: nat, key: int)
    requires s.Valid() && |a| == 8 * s.blocks
  {
    && Reachable(s, n)
    && LeftTooSmall(s, a, n, key)
    && (key <= KeyUnder(s, a, n) || (a[|a| - 1].key < key && n == 17 * st))
  }

  /** Along the left edge the first leaf is rank 0; along the right edge the last leaf is the
      last block of the array. */
  lemma {:induction false} Edges(s: Shape, st: nat)
    requires s.Valid() && IsLevel(s.thres, st) && st <= s.thres
    ensures Rank(s, Leftmost(s, st)) == 0
    ensures 17 * st >= s.Internal() || st < s.thres
    ensures s.shallow == 0 || st < s.thres ==> LastBlock(s, Rightmost(s, 17 * st)) == s.blocks - 1
    decreases s.thres - st
  {
    ShapeBounds(s);
    if st < s.thres {
      LevelsAboveLeaves(s, st);
      Edges(s, 17 * st + 1);
    }
  }

  lemma CoversRoot(s: Shape, a: seq<Pair>, key: int)
    requires s.Valid() && IsLevel(s.thres, 0) && |a| == 8 * s.blocks && Sorted(a)
    ensures Covers(s, a, 0, 0, key) && AtLevel(s, 0, 0)
  {
    ShapeBounds(s);
    Edges(s, 0);
  }

  /** Within a level, subtrees further right end at leaves further right. */
  lemma {:induction false} RanksOrdered(s: Shape, c: nat, e: nat, st: nat)
    requires s.Valid() && AtLevel(s, c, st) && AtLevel(s, e, st) && c <= e
    requires Reachable(s, c) && Reachable(s, e)
    ensures Rank(s, Rightmost(s, c)) <= Rank(s, Rightmost(s, e))
    decreases s.thres - st
  {
    ShapeBounds(s);
    if e < s.Internal() {
      RanksOrdered(s, 17 * c + 17, 17 * e + 17, 17 * st + 1);
    } else if c < s.Internal() {
      RightmostIsLeaf(s, 17 * c + 17);
      DeepLeafBound(s, Rightmost(s, 17 * c + 17));
      LevelsAboveLeaves(s, st);
    } else if st < s.thres {
      LevelsAboveLeaves(s, st);
    }
  }

  lemma KeysOrdered(s: Shape, a: seq<Pair>, c: nat, e: nat, st: nat)
    requires s.Valid() && |a| == 8 * s.blocks && Sorted(a)
    requires AtLevel(s, c, st) && AtLevel(s, e, st) && c <= e
    requires Reachable(s, c) && Reachable(s, e)
    ensures KeyUnder(s, a, c) <= KeyUnder(s, a, e)
  {
    RanksOrdered(s, c, e, st);
    RightmostIsLeaf(s, c);
    RightmostIsLeaf(s, e);
  }

  /** Slot t of node n speaks for child 17n+t+1. */
  lemma SlotOf(s: Shape, a: seq<Pair>, b: seq<int>, n: nat, t: nat)
    requires IsDirectory(s, a, b) && n < s.Internal() && t < 16
    ensures 16 * n + t < |b| && Reachable(s, 17 * n + t + 1)
    ensures b[16 * n + t] == KeyUnder(s, a, 17 * n + t + 1)
  {
    assert (16 * n + t) / 16 == n && (16 * n + t) % 16 == t;
  }

  /** The directory keys of one node do not decrease from slot to slot. */
  lemma SlotsSorted(s: Shape, a: seq<Pair>, b: seq<int>, n: nat, st: nat)
    requires IsDirectory(s, a, b) && Sorted(a)
    requires AtLevel(s, n, st) && n < s.Internal()
    ensures 16 * n + 16 <= |b|
    ensures forall i, j :: 16 * n <= i <= j < 16 * n + 16 ==> b[i] <= b[j]
  {
    hide SlotKey, AtLevel;
    forall i, j | 16 * n <= i <= j < 16 * n + 16
      ensures b[i] <= b[j]
    {
      SlotPair(s, a, b, n, st, i - 16 * n, j - 16 * n);
    }
  }

  lemma SlotPair(s: Shape, a: seq<Pair>, b: seq<int>, n: nat, st: nat, t: nat, u: nat)
    requires IsDirectory(s, a, b) && Sorted(a)
    requires AtLevel(s, n, st) && n < s.Internal() && t <= u < 16
    ensures 16 * n + u < |b| && b[16 * n + t] <= b[16 * n + u]
  {
    hide AtLevel, KeyUnder, SlotKey;
    SlotOf(s, a, b, n, t);
    SlotOf(s, a, b, n, u);
    SiblingKeys(s, a, n, st, t + 1, u + 1);
  }

  lemma SiblingKeys(s: Shape, a: seq<Pair>, n: nat, st: nat, l: nat, m: nat)
    requires s.Valid() && |a| == 8 * s.blocks && Sorted(a)
    requires AtLevel(s, n, st) && n < s.Internal() && 1 <= l <= m <= 17
    ensures KeyUnder(s, a, 17 * n + l) <= KeyUnder(s, a, 17 * n + m)
  {
    hide IsLevel, KeyUnder;
    ChildrenAtLevel(s, n, st, l);
    ChildrenAtLevel(s, n, st, m);
    KeysOrdered(s, a, 17 * n + l, 17 * n + m, 17 * st + 1);
  }

  lemma ChildrenAtLevel(s: Shape, n: nat, st: nat, l: nat)
    requires s.Valid() && AtLevel(s, n, st) && n < s.Internal() && 1 <= l <= 17
    ensures AtLevel(s, 17 * n + l, 17 * st + 1)
  {
  }

  /** One step of the descent keeps the invariant. */
  lemma CoversChild(s: Shape, a: seq<Pair>, n: nat, st: nat, l: nat, key: int)
    requires s.Valid() && |a| == 8 * s.blocks && Sorted(a)
    requires AtLevel(s, n, st) && n < s.Internal() && Covers(s, a, n, st, key)
    requires 1 <= l <= 17
    requires l > 1 ==> KeyUnder(s, a, 17 * n + l - 1) < key
    requires l < 17 ==> key <= KeyUnder(s, a, 17 * n + l)
    ensures Covers(s, a, 17 * n + l, 17 * st + 1, key)
  {
    hide KeyUnder, AtLevel;
    if l == 17 { SameLastKey(s, a, n); }
    if l == 1 {
      assert Leftmost(s, n) == Leftmost(s, 17 * n + 1);
    } else {
      hide KeyUnder, Rightmost, Leftmost, LeftTooSmall, AtLevel;
      ChildrenAtLevel(s, n, st, l - 1);
      ChildrenAtLevel(s, n, st, l);
      PassedTooSmall(s, a, 17 * n + l - 1, 17 * st + 1, key);
    }
  }

  lemma SameLastKey(s: Shape, a: seq<Pair>, n: nat)
    requires s.Valid() && |a| == 8 * s.blocks && n < s.Internal()
    ensures Reachable(s, 17 * n + 17) && KeyUnder(s, a, n) == KeyUnder(s, a, 17 * n + 17)
  {
  }

  /** The same step, read off the directory array. */
  lemma Descend(s: Shape, a: seq<Pair>, b: seq<int>, n: nat, st: nat, l: nat, key: int)
    requires IsDirectory(s, a, b) && Sorted(a)
    requires AtLevel(s, n, st) && n < s.Internal() && Covers(s, a, n, st, key)
    requires 1 <= l <= 17
    requires l > 1 ==> b[16 * n + l - 2] < key
    requires l < 17 ==> key <= b[16 * n + l - 1]
    ensures Covers(s, a, 17 * n + l, 17 * st + 1, key) && AtLevel(s, 17 * n + l, 17 * st + 1)
  {
    hide IsLevel, Covers, KeyUnder, SlotKey;
    if l > 1 { SlotOf(s, a, b, n, l - 2); }
    if l < 17 { SlotOf(s, a, b, n, l - 1); }
    ChildrenAtLevel(s, n, st, l);
    CoversChild(s, a, n, st, l, key);
  }

  lemma PassedTooSmall(s: Shape, a: seq<Pair>, c: nat, st: nat, key: int)
    requires s.Valid() && |a| == 8 * s.blocks && Sorted(a)
    requires AtLevel(s, c, st) && AtLevel(s, c + 1, st) && Reachable(s, c)
    requires KeyUnder(s, a, c) < key
    ensures LeftTooSmall(s, a, c + 1, key)
  {
    NeighboursMeet(s, c, st);
    RightmostIsLeaf(s, c);
    assert BlocksBefore(s, Rank(s, Leftmost(s, c + 1))) == LastBlock(s, Rightmost(s, c)) + 1;
  }

  /** At a leaf the invariant rules out the dangling leaves and pins the block down. */
  lemma CoversLeaf(s: Shape, a: seq<Pair>, n: nat, st: nat, key: int)
    requires s.Valid() && |a| == 8 * s.blocks && Sorted(a)
    requires n >= s.Internal() && AtLevel(s, n, st) && Covers(s, a, n, st, key)
    requires key <= a[|a| - 1].key || StaysInside(s)
    ensures var l := 8 * (n - s.thres); var p := if l < 0 then l + |a| else l;
      && 0 <= p && p + 8 <= |a|
      && (forall i :: 0 <= i < p ==> a[i].key < key)
      && (key <= a[p + 7].key || p + 8 == |a|)
  {
    if key <= KeyUnder(s, a, n) {
      CoveredLeaf(s, a, n, key);
    } else {
      hide LeftTooSmall;
      ShapeBounds(s);
      if st < s.thres { LevelsAboveLeaves(s, st); }
    }
  }

  lemma CoveredLeaf(s: Shape, a: seq<Pair>, n: nat, key: int)
    requires s.Valid() && |a| == 8 * s.blocks && Reachable(s, n)
    requires n >= s.Internal() && LeftTooSmall(s, a, n, key) && key <= KeyUnder(s, a, n)
    ensures var l := 8 * (n - s.thres); var p := if l < 0 then l + |a| else l;
      && 0 <= p && p + 8 <= |a|
      && (forall i :: 0 <= i < p ==> a[i].key < key)
      && key <= a[p + 7].key
  {
    ShapeBounds(s);
    LeafRank(s, n);
    if n >= s.thres && n - s.thres >= s.Deep() {
      assert false;
    }
  }

  /** The last leaf of the directory is a block of the array, not a dangling leaf number. */
  predicate StaysInside(s: Shape) {
    s.shallow > 0 || s.dangling == 0
  }

  /** The exception: a key above the whole array takes the last child each time, and when the last leaf
      number dangles, that leads to a block past the end of the array. */
  lemma RunsPastTheEnd(s: Shape, a: seq<Pair>, n: nat, st: nat, key: int)
    requires s.Valid() && |a| == 8 * s.blocks && Sorted(a)
    requires n >= s.Internal() && AtLevel(s, n, st) && Covers(s, a, n, st, key)
    requires a[|a| - 1].key < key && !StaysInside(s)
    ensures 8 * (n - s.thres) >= |a|
  {
    ShapeBounds(s);
    RightmostIsLeaf(s, n);
    assert KeyUnder(s, a, n) <= a[|a| - 1].key;
    LastLeafNumber(s, st);
  }

  /** The exception occurs: two blocks need a directory of one node, with fifteen dangling leaf numbers. */
  lemma SmallestException()
    ensures !StaysInside(ShapeOf(2)) && ShapeOf(2) == Shape(2, 1, 0, 0, 15)
  {
    assert Pow17(0) == 1 && Pow17(1) == 17;
    assert LeastExponent(2, 1) == 1 == LeastExponent(2, 0);
  }

  lemma {:induction false} LastLeafNumber(s: Shape, st: nat)
    requires s.Valid() && IsLevel(s.thres, st) && s.shallow == 0
    ensures Rightmost(s, 17 * st) == 17 * s.thres
    decreases s.thres - st
  {
    if st < s.thres {
      ShapeBounds(s);
      LevelsAboveLeaves(s, st);
      LastLeafNumber(s, 17 * st + 1);
    }
  }

  /** The descent, for any key: it ends at a block of the array if and only if the key is not above the whole
      array or the last leaf number is a block; then the first entry that is not smaller is in that block. */
  method FindBlock(a1: array<Pair>, num: nat, key: int, a2: array<int>, nInternal: int, thres: int) returns (p: int)
    requires a1.Length == num > 0 && num % 8 == 0 && Sorted(a1[..])
    requires var s := ShapeOf(num / 8);
      IsDirectory(s, a1[..], a2[..]) && nInternal == s.Internal() && thres == s.thres
    ensures var inside := key <= a1[num - 1].key || StaysInside(ShapeOf(num / 8));
      && (inside ==> 0 <= p && p + 8 <= num && forall i :: 0 <= i < p ==> a1[i].key < key)
      && (inside ==> 0 <= p && p + 8 <= num && (key <= a1[p + 7].key || p + 8 == num))
      && (!inside ==> p >= num)
  {
    hide *;
    ghost var s, a, b := ShapeOf(num / 8), a1[..], a2[..];
    var node := 0;
    ghost var st: nat := 0;
    CoversRoot(s, a, key);
    while node < nInternal
      invariant 0 <= node && AtLevel(s, node, st)
      invariant Covers(s, a, node, st, key)
      decreases nInternal - node
    {
      SlotsSorted(s, a, b, node, st);
      var l := Branch(a2, 16 * node, key);
      Descend(s, a, b, node, st, l, key);
      node, st := node * 17 + l, 17 * st + 1;
    }
    if key <= a1[num - 1].key || StaysInside(s) {
      CoversLeaf(s, a, node, st, key);
    } else {
      RunsPastTheEnd(s, a, node, st, key);
    }
    p := (node - thres) * 8;
    if p < 0 { p := p + num; }
  }

  method Search(a1: array<Pair>, num: nat, key: int, a2: array<int>, nInternal: int, thres: int) returns (tid: int)
    requires a1.Length == num > 0 && num % 8 == 0 && Sorted(a1[..])
    requires var s := ShapeOf(num / 8);
      IsDirectory(s, a1[..], a2[..]) && nInternal == s.Internal() && thres == s.thres
    requires key <= a1[num - 1].key || StaysInside(ShapeOf(num / 8))
    ensures IsLeftmostMatch(a1[..], key, tid)
  {
    hide *;
    var p := FindBlock(a1, num, key, a2, nInternal, thres);
    var l := BranchLeaf(a1, p, key);
    LeftmostFrom(a1[..], p + l, key);
    if l < 8 && key == a1[p + l].key { tid := a1[p + l].tid; } else { tid := 0; }
  }

  /** The answer is settled by the first entry whose key is not below the one looked for. */
  lemma LeftmostFrom(a: seq<Pair>, m: nat, key: int)
    requires Sorted(a) && m <= |a|
    requires forall i :: 0 <= i < m ==> a[i].key < key
    requires m < |a| ==> key <= a[m].key
    ensures IsLeftmostMatch(a, key, if m < |a| && a[m].key == key then a[m].tid else 0)
  {
  }
}
