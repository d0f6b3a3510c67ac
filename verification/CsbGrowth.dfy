/** What one insertion does to a CSB+-tree, node by node: a subtree grows, or it parts in two
    around a new separator. */
module CsbGrowth {
  import opened SortedPairs
  import opened CsbShape

  const HALF_KEYS: nat := 7

  /** x is t with the entry e. */
  ghost predicate Grew(t: Tree, x: Tree, e: Pair, lo: int, hi: int, h: nat) {
    && Within(x, lo, hi, h)
    && Contents(x) == PutPair(Contents(t), e)
    && forall key :: Reaches(x, key) <==> Reaches(t, key) || key == e.key
  }

  /** x and y, separated by s, are t with the entry e. */
  ghost predicate Parted(t: Tree, x: Tree, s: int, y: Tree, e: Pair, lo: int, hi: int, h: nat) {
    && Within(x, lo, s, h)
    && Within(y, s, hi, h)
    && Contents(x) + Contents(y) == PutPair(Contents(t), e)
    && forall key :: (if key <= s then Reaches(x, key) else Reaches(y, key)) <==> Reaches(t, key) || key == e.key
  }

  // ---------------------------------------------------------------- leaves

  lemma LeafGrew(es: seq<Pair>, e: Pair, lo: int, hi: int)
    requires Within(Leaf(es), lo, hi, 0) && |es| < MAX_ENTRIES && lo <= e.key <= hi
    ensures Grew(Leaf(es), Leaf(PutPair(es, e)), e, lo, hi, 0)
  {
    hide LowerBound, PutPair;
    PutPairSorted(es, e);
    PutPairBetween(es, e, lo, hi);
    forall key
      ensures Reaches(Leaf(PutPair(es, e)), key) <==> Reaches(Leaf(es), key) || key == e.key
    {
      PutPairKeys(es, e, key);
    }
  }

  lemma PutPairBetween(es: seq<Pair>, e: Pair, lo: int, hi: int)
    requires KeysBetween(es, lo, hi) && lo <= e.key <= hi
    ensures KeysBetween(PutPair(es, e), lo, hi) && |PutPair(es, e)| == |es| + 1
  {
    hide LowerBound;
  }

  /** A full leaf keeps the first four of its seven entries; the fourth key separates. */
  lemma LeafParted(es: seq<Pair>, e: Pair, lo: int, hi: int)
    requires Within(Leaf(es), lo, hi, 0) && |es| == MAX_ENTRIES && lo <= e.key <= hi
    ensures |PutPair(es, e)| == 7
    ensures var p := PutPair(es, e); Parted(Leaf(es), Leaf(p[..4]), p[3].key, Leaf(p[4..]), e, lo, hi, 0)
  {
    hide LowerBound, PutPair;
    var p := PutPair(es, e);
    PutPairSorted(es, e);
    PutPairBetween(es, e, lo, hi);
    HalvesWithin(p, lo, hi);
    assert p[..4] + p[4..] == p;
    forall key
      ensures (if key <= p[3].key then Reaches(Leaf(p[..4]), key) else Reaches(Leaf(p[4..]), key))
        <==> Reaches(Leaf(es), key) || key == e.key
    {
      PutPairKeys(es, e, key);
      HalvesHave(p, key);
    }
  }

  lemma HalvesWithin(p: seq<Pair>, lo: int, hi: int)
    requires Sorted(p) && KeysBetween(p, lo, hi) && |p| == 7
    ensures Within(Leaf(p[..4]), lo, p[3].key, 0) && Within(Leaf(p[4..]), p[3].key, hi, 0)
  {
  }

  lemma HalvesHave(p: seq<Pair>, key: int)
    requires Sorted(p) && |p| == 7
    ensures HasKey(p, key) <==> if key <= p[3].key then HasKey(p[..4], key) else HasKey(p[4..], key)
  {
    var x, y := p[..4], p[4..];
    assert forall i :: 0 <= i < 4 ==> x[i] == p[i];
    assert forall i :: 0 <= i < 3 ==> y[i] == p[i + 4];
    if key == p[3].key { assert x[3].key == key; }
    if HasKey(p, key) {
      var i :| 0 <= i < |p| && p[i].key == key;
      if i < 4 { assert x[i].key == key; } else { assert y[i - 4].key == key; }
    }
  }

  // ---------------------------------------------------------------- inner nodes

  /** The kids of an inner node with one entry more. */
  ghost predicate BranchesGrew(keys: seq<int>, kids: seq<Tree>, keys': seq<int>, kids': seq<Tree>, e: Pair, lo: int,
                               hi: int, h: nat) {
    && Branches(keys', kids', lo, hi, h)
    && Flat(kids') == PutPair(Flat(kids), e)
    && forall key :: BranchReaches(keys', kids', key) <==> BranchReaches(keys, kids, key) || key == e.key
  }

  /** New kids in the place of one kid. */
  function Spliced<T>(s: seq<T>, l: nat, m: seq<T>): seq<T>
    requires l < |s|
  {
    s[..l] + m + s[l + 1..]
  }

  function Gap<T>(s: seq<T>, l: nat, x: T): seq<T>
    requires l <= |s|
  {
    s[..l] + [x] + s[l..]
  }

  /** The contents of the new kids are spliced into the contents of the node. */
  lemma SplicedContents(keys: seq<int>, kids: seq<Tree>, m: seq<Tree>, e: Pair, lo: int, hi: int, h: nat)
    requires Branches(keys, kids, lo, hi, h)
    ensures KeyIndex(keys, e.key) < |kids|
    ensures var l := KeyIndex(keys, e.key);
      Flat(m) == PutPair(Contents(kids[l]), e) ==> Flat(Spliced(kids, l, m)) == PutPair(Flat(kids), e)
  {
    hide *;
    RouteCut(keys, kids, lo, hi, h, e.key);
    var l := KeyIndex(keys, e.key);
    SplicedIs(kids, l, m);
    FlatAround(kids[..l], m, kids[l + 1..]);
    PutPairInside(Flat(kids[..l]), Contents(kids[l]), Flat(kids[l + 1..]), e);
  }

  lemma SplicedIs<T>(s: seq<T>, l: nat, m: seq<T>)
    requires l < |s|
    ensures Spliced(s, l, m) == s[..l] + m + s[l + 1..]
  {
  }

  lemma BranchesParts(keys: seq<int>, kids: seq<Tree>, lo: int, hi: int, h: nat)
    requires Branches(keys, kids, lo, hi, h)
    ensures |kids| == |keys| + 1 && SortedKeys(keys, lo, hi)
    ensures forall i :: 0 <= i < |kids| ==> Within(kids[i], LoOf(keys, lo, i), HiOf(keys, hi, i), h)
  {
  }

  /** One kid grew. */
  lemma KidGrew(keys: seq<int>, kids: seq<Tree>, x: Tree, e: Pair, lo: int, hi: int, h: nat)
    requires Branches(keys, kids, lo, hi, h)
    requires KeyIndex(keys, e.key) < |kids|
    requires var l := KeyIndex(keys, e.key); Grew(kids[l], x, e, LoOf(keys, lo, l), HiOf(keys, hi, l), h)
    ensures BranchesGrew(keys, kids, keys, kids[KeyIndex(keys, e.key) := x], e, lo, hi, h)
  {
    hide LowerBound, PutPair, KeyIndex, Flat, Contents, Within, LeafFor, HasKey;
    var l := KeyIndex(keys, e.key);
    var kids' := kids[l := x];
    assert kids' == Spliced(kids, l, [x]);
    FlatOne(x);
    SplicedContents(keys, kids, [x], e, lo, hi, h);
    forall key
      ensures BranchReaches(keys, kids', key) <==> BranchReaches(keys, kids, key) || key == e.key
    {
      KidGrewReaches(keys, kids, x, e.key, key);
    }
  }

  lemma KidGrewReaches(keys: seq<int>, kids: seq<Tree>, x: Tree, k: int, key: int)
    requires |kids| == |keys| + 1
    requires Reaches(x, key) <==> Reaches(kids[KeyIndex(keys, k)], key) || key == k
    ensures BranchReaches(keys, kids[KeyIndex(keys, k) := x], key) <==> BranchReaches(keys, kids, key) || key == k
  {
    hide KeyIndex, LeafFor, HasKey;
  }

  /** One kid parted: a separator and a kid more. */
  lemma KidParted(keys: seq<int>, kids: seq<Tree>, x: Tree, s: int, y: Tree, e: Pair, lo: int, hi: int, h: nat)
    requires Branches(keys, kids, lo, hi, h)
    requires KeyIndex(keys, e.key) < |kids|
    requires var l := KeyIndex(keys, e.key); Parted(kids[l], x, s, y, e, LoOf(keys, lo, l), HiOf(keys, hi, l), h)
    ensures var l := KeyIndex(keys, e.key); BranchesGrew(keys, kids, Gap(keys, l, s), Spliced(kids, l, [x, y]), e, lo,
      hi, h)
  {
    hide *;
    var l := KeyIndex(keys, e.key);
    BranchesParts(keys, kids, lo, hi, h);
    PartedParts(kids[l], x, s, y, e, LoOf(keys, lo, l), HiOf(keys, hi, l), h);
    FlatTwo(x, y);
    SplicedContents(keys, kids, [x, y], e, lo, hi, h);
    PartedBranches(keys, kids, l, x, s, y, lo, hi, h);
    forall key
      ensures BranchReaches(Gap(keys, l, s), Spliced(kids, l, [x, y]), key) <==>
        BranchReaches(keys, kids, key) || key == e.key
    {
      PartedReaches(keys, kids, x, s, y, e.key, key, lo, hi);
    }
    BranchesGrewIs(keys, kids, Gap(keys, l, s), Spliced(kids, l, [x, y]), e, lo, hi, h);
  }

  lemma BranchesGrewIs(keys: seq<int>, kids: seq<Tree>, keys': seq<int>, kids': seq<Tree>, e: Pair, lo: int, hi: int,
                       h: nat)
    requires Branches(keys', kids', lo, hi, h)
    requires Flat(kids') == PutPair(Flat(kids), e)
    requires forall key :: BranchReaches(keys', kids', key) <==> BranchReaches(keys, kids, key) || key == e.key
    ensures BranchesGrew(keys, kids, keys', kids', e, lo, hi, h)
  {
  }

  lemma PartedParts(t: Tree, x: Tree, s: int, y: Tree, e: Pair, lo: int, hi: int, h: nat)
    requires Parted(t, x, s, y, e, lo, hi, h)
    ensures Within(x, lo, s, h) && Within(y, s, hi, h) && lo <= s <= hi
    ensures Contents(x) + Contents(y) == PutPair(Contents(t), e)
    ensures forall key :: (if key <= s then Reaches(x, key) else Reaches(y, key)) <==> Reaches(t, key) || key == e.key
  {
    hide Contents, PutPair, Reaches;
    ContentsSorted(x, lo, s, h);
    ContentsSorted(y, s, hi, h);
  }

  lemma PartedBranches(keys: seq<int>, kids: seq<Tree>, l: nat, x: Tree, s: int, y: Tree, lo: int, hi: int, h: nat)
    requires Branches(keys, kids, lo, hi, h) && l < |kids|
    requires l <= |keys| && LoOf(keys, lo, l) <= s <= HiOf(keys, hi, l)
    requires Within(x, LoOf(keys, lo, l), s, h) && Within(y, s, HiOf(keys, hi, l), h)
    ensures Branches(Gap(keys, l, s), Spliced(kids, l, [x, y]), lo, hi, h)
  {
    hide Within;
    var keys', kids' := Gap(keys, l, s), Spliced(kids, l, [x, y]);
    GapSorted(keys, l, s, lo, hi);
    forall i | 0 <= i < |kids'|
      ensures Within(kids'[i], LoOf(keys', lo, i), HiOf(keys', hi, i), h)
    {
      GapBounds(keys, l, s, lo, hi, i);
      if i < l {
        assert kids'[i] == kids[i];
      } else if i > l + 1 {
        assert kids'[i] == kids[i - 1];
      }
    }
  }

  lemma GapSorted(keys: seq<int>, l: nat, s: int, lo: int, hi: int)
    requires SortedKeys(keys, lo, hi) && l <= |keys| && LoOf(keys, lo, l) <= s <= HiOf(keys, hi, l)
    ensures SortedKeys(Gap(keys, l, s), lo, hi)
  {
    var keys' := Gap(keys, l, s);
    forall i | 0 <= i < |keys'|
      ensures lo <= keys'[i] <= hi
    {
      if i < l { assert keys'[i] == keys[i]; } else if i > l { assert keys'[i] == keys[i - 1]; }
    }
    forall i, j | 0 <= i < j < |keys'|
      ensures keys'[i] <= keys'[j]
    {
      if i < l { assert keys'[i] == keys[i]; } else if i > l { assert keys'[i] == keys[i - 1]; }
      if j < l { assert keys'[j] == keys[j]; } else if j > l { assert keys'[j] == keys[j - 1]; }
    }
  }

  lemma GapBounds(keys: seq<int>, l: nat, s: int, lo: int, hi: int, i: nat)
    requires l <= |keys| && i <= |keys| + 1
    ensures LoOf(Gap(keys, l, s), lo, i) == if i <= l then LoOf(keys, lo, i) else if i == l + 1 then s
      else LoOf(keys, lo, i - 1)
    ensures HiOf(Gap(keys, l, s), hi, i) == if i < l then HiOf(keys, hi, i) else if i == l then s
      else HiOf(keys, hi, i - 1)
  {
  }

  lemma PartedReaches(keys: seq<int>, kids: seq<Tree>, x: Tree, s: int, y: Tree, k: int, key: int, lo: int, hi: int)
    requires |kids| == |keys| + 1 && SortedKeys(keys, lo, hi)
    requires var l := KeyIndex(keys, k); LoOf(keys, lo, l) <= s <= HiOf(keys, hi, l)
    requires (if key <= s then Reaches(x, key) else Reaches(y, key)) <==>
      Reaches(kids[KeyIndex(keys, k)], key) || key == k
    ensures var l := KeyIndex(keys, k);
      BranchReaches(Gap(keys, l, s), Spliced(kids, l, [x, y]), key) <==> BranchReaches(keys, kids, key) || key == k
  {
    hide KeyIndex, LeafFor, HasKey;
    var l := KeyIndex(keys, k);
    GapSorted(keys, l, s, lo, hi);
    var i := KeyIndex(keys, key);
    var keys' := Gap(keys, l, s);
    var i' := if i < l then i else if i == l && key <= s then l else i + 1;
    assert i < l ==> keys'[i] == keys[i];
    assert i' > 0 ==> keys'[i' - 1] < key;
    KeyIndexIs(keys', key, i');
    var kids' := Spliced(kids, l, [x, y]);
    assert kids'[i'] == if i < l then kids[i] else if i > l then kids[i] else if key <= s then x else y;
  }

  // ---------------------------------------------------------------- a node with too many kids

  /** Cutting a node at separator m: the separator moves up. */
  lemma CutBranches(keys: seq<int>, kids: seq<Tree>, m: nat, lo: int, hi: int, h: nat)
    requires Branches(keys, kids, lo, hi, h) && m < |keys|
    ensures Branches(keys[..m], kids[..m + 1], lo, keys[m], h)
    ensures Branches(keys[m + 1..], kids[m + 1..], keys[m], hi, h)
    ensures lo <= keys[m] <= hi
    ensures Flat(kids[..m + 1]) + Flat(kids[m + 1..]) == Flat(kids)
  {
    hide Within, Flat;
    assert kids[..m + 1] + kids[m + 1..] == kids;
    FlatConcat(kids[..m + 1], kids[m + 1..]);
    forall i | 0 <= i < m + 1
      ensures Within(kids[..m + 1][i], LoOf(keys[..m], lo, i), HiOf(keys[..m], keys[m], i), h)
    {
    }
    var right := kids[m + 1..];
    forall i | 0 <= i < |right|
      ensures Within(right[i], LoOf(keys[m + 1..], keys[m], i), HiOf(keys[m + 1..], hi, i), h)
    {
      assert right[i] == kids[m + 1 + i];
    }
  }

  lemma CutReaches(keys: seq<int>, kids: seq<Tree>, m: nat, lo: int, hi: int, key: int)
    requires |kids| == |keys| + 1 && SortedKeys(keys, lo, hi) && m < |keys|
    ensures BranchReaches(keys, kids, key) <==>
      if key <= keys[m] then BranchReaches(keys[..m], kids[..m + 1], key)
          else BranchReaches(keys[m + 1..], kids[m + 1..], key)
  {
    hide KeyIndex, LeafFor, HasKey;
    var i := KeyIndex(keys, key);
    if key <= keys[m] {
      assert i <= m;
      KeyIndexIs(keys[..m], key, i);
    } else {
      assert i > m;
      var right := keys[m + 1..];
      assert forall j :: 0 <= j < |right| ==> right[j] == keys[m + 1 + j];
      KeyIndexIs(right, key, i - m - 1);
      assert kids[m + 1..][i - m - 1] == kids[i];
    }
  }

  /** An inner node grew. */
  lemma NodeGrew(t: Tree, keys': seq<int>, first': Ptr, kids': seq<Tree>, e: Pair, lo: int, hi: int, h: nat)
    requires t.Node? && BranchesGrew(t.keys, t.kids, keys', kids', e, lo, hi, h) && 1 <= |keys'| <= MAX_KEYS
    ensures Grew(t, Node(keys', first', kids'), e, lo, hi, h + 1)
  {
    hide Flat, PutPair, Branches, HasKey, RouteTo;
    forall key
      ensures Reaches(Node(keys', first', kids'), key) <==> Reaches(t, key) || key == e.key
    {
      assert BranchReaches(keys', kids', key) <==> BranchReaches(t.keys, t.kids, key) || key == e.key;
    }
  }

  /** An inner node with fifteen separators is cut in two: the eighth moves up. */
  lemma NodeParted(t: Tree, keys': seq<int>, f: Ptr, g: Ptr, kids': seq<Tree>, e: Pair, lo: int, hi: int, h: nat)
    requires t.Node? && BranchesGrew(t.keys, t.kids, keys', kids', e, lo, hi, h) && |keys'| == MAX_KEYS + 1
    ensures |kids'| == 16
    ensures Parted(t, Node(keys'[..7], f, kids'[..8]), keys'[7], Node(keys'[8..], g, kids'[8..]), e, lo, hi, h + 1)
  {
    hide Flat, PutPair, Branches, BranchesGrew, BranchReaches, Parted;
    BranchesGrewParts(t.keys, t.kids, keys', kids', e, lo, hi, h);
    BranchesParts(keys', kids', lo, hi, h);
    CutBranches(keys', kids', 7, lo, hi, h);
    forall key
      ensures BranchReaches(keys', kids', key) <==>
        if key <= keys'[7] then BranchReaches(keys'[..7], kids'[..8], key)
            else BranchReaches(keys'[8..], kids'[8..], key)
    {
      CutReaches(keys', kids', 7, lo, hi, key);
    }
    NodePartedIs(t, keys'[..7], keys'[7], keys'[8..], f, g, kids'[..8], kids'[8..], e, lo, hi, h);
  }

  lemma BranchesGrewParts(keys: seq<int>, kids: seq<Tree>, keys': seq<int>, kids': seq<Tree>, e: Pair, lo: int, hi: int,
                          h: nat)
    requires BranchesGrew(keys, kids, keys', kids', e, lo, hi, h)
    ensures Branches(keys', kids', lo, hi, h)
    ensures Flat(kids') == PutPair(Flat(kids), e)
    ensures forall key :: BranchReaches(keys', kids', key) <==> BranchReaches(keys, kids, key) || key == e.key
  {
  }

  lemma NodePartedIs(t: Tree, keys1: seq<int>, s: int, keys2: seq<int>, f: Ptr, g: Ptr, kids1: seq<Tree>,
                     kids2: seq<Tree>, e: Pair, lo: int, hi: int, h: nat)
    requires t.Node? && 1 <= |keys1| <= MAX_KEYS && 1 <= |keys2| <= MAX_KEYS
    requires Branches(keys1, kids1, lo, s, h) && Branches(keys2, kids2, s, hi, h)
    requires Flat(kids1) + Flat(kids2) == PutPair(Flat(t.kids), e)
    requires forall key :: (if key <= s then BranchReaches(keys1, kids1, key) else BranchReaches(keys2, kids2, key))
                           <==> BranchReaches(t.keys, t.kids, key) || key == e.key
    ensures Parted(t, Node(keys1, f, kids1), s, Node(keys2, g, kids2), e, lo, hi, h + 1)
  {
    hide Flat, PutPair, Branches, HasKey, RouteTo;
    var x, y := Node(keys1, f, kids1), Node(keys2, g, kids2);
    forall key
      ensures (if key <= s then Reaches(x, key) else Reaches(y, key)) <==> Reaches(t, key) || key == e.key
    {
      assert (if key <= s then BranchReaches(keys1, kids1, key) else BranchReaches(keys2, kids2, key))
             <==> BranchReaches(t.keys, t.kids, key) || key == e.key;
    }
  }

  // ---------------------------------------------------------------- what growth keeps
}
