/** The abstract CSB+-tree: sorted leaves under inner nodes with separator keys, all leaves at the
    same depth.  Separators are not strict: keys equal to a separator may stand on both sides. */
module CsbShape {
  import opened SortedPairs

  /** An address; 0 is the null pointer. */
  type Ptr = nat
  const NULL: Ptr := 0

  const MAX_KEYS: nat := 14
  const MAX_ENTRIES: nat := 6

  /** The children of an inner node occupy consecutive cells from `first` on. */
  datatype Tree = Leaf(es: seq<Pair>) | Node(keys: seq<int>, first: Ptr, kids: seq<Tree>)

  ghost function Contents(t: Tree): seq<Pair>
    decreases t, 0
  {
    match t case Leaf(es) => es case Node(_, _, kids) => Flat(kids)
  }

  ghost function Flat(kids: seq<Tree>): seq<Pair>
    decreases kids, 1
  {
    if kids == [] then [] else Contents(kids[0]) + Flat(kids[1..])
  }

  ghost predicate SortedKeys(keys: seq<int>, lo: int, hi: int) {
    && lo <= hi
    && (forall i :: 0 <= i < |keys| ==> lo <= keys[i] <= hi)
    && (forall i, j :: 0 <= i <= j < |keys| ==> keys[i] <= keys[j])
  }

  /** Bounds of kid i. */
  ghost function LoOf(keys: seq<int>, lo: int, i: nat): int
    requires i <= |keys|
  {
    if i == 0 then lo else keys[i - 1]
  }

  ghost function HiOf(keys: seq<int>, hi: int, i: nat): int
    requires i <= |keys|
  {
    if i < |keys| then keys[i] else hi
  }

  /** A well-formed tree of height h whose keys lie between lo and hi. */
  ghost predicate Within(t: Tree, lo: int, hi: int, h: nat)
    decreases t, 0
  {
    match t
    case Leaf(es) => h == 0 && |es| <= MAX_ENTRIES && lo <= hi && Sorted(es) && KeysBetween(es, lo, hi)
    case Node(keys, _, kids) => h > 0 && 1 <= |keys| <= MAX_KEYS && Branches(keys, kids, lo, hi, h - 1)
  }

  /** Kids of height h between their separators. */
  ghost predicate Branches(keys: seq<int>, kids: seq<Tree>, lo: int, hi: int, h: nat)
    decreases kids, 1
  {
    && |kids| == |keys| + 1
    && SortedKeys(keys, lo, hi)
    && forall i :: 0 <= i < |kids| ==> Within(kids[i], LoOf(keys, lo, i), HiOf(keys, hi, i), h)
  }

  // ---------------------------------------------------------------- contents

  lemma {:induction false} FlatConcat(a: seq<Tree>, b: seq<Tree>)
    ensures Flat(a + b) == Flat(a) + Flat(b)
    decreases |a|
  {
    if a == [] {
      assert a + b == b;
    } else {
      assert (a + b)[0] == a[0] && (a + b)[1..] == a[1..] + b;
      FlatConcat(a[1..], b);
    }
  }

  lemma FlatOne(t: Tree)
    ensures Flat([t]) == Contents(t)
  {
    assert [t][1..] == [];
    assert Flat([t]) == Contents(t) + Flat([t][1..]);
  }

  lemma FlatTwo(x: Tree, y: Tree)
    ensures Flat([x, y]) == Contents(x) + Contents(y)
  {
    hide *;
    assert [x, y] == [x] + [y];
    FlatConcat([x], [y]);
    FlatOne(x);
    FlatOne(y);
  }

  lemma FlatAround(before: seq<Tree>, mid: seq<Tree>, after: seq<Tree>)
    ensures Flat(before + mid + after) == Flat(before) + Flat(mid) + Flat(after)
  {
    hide *;
    FlatConcat(before + mid, after);
    FlatConcat(before, mid);
  }

  lemma CutAt(kids: seq<Tree>, i: nat)
    requires i < |kids|
    ensures kids == kids[..i] + [kids[i]] + kids[i + 1..]
  {
  }

  ghost predicate ContentsOk(t: Tree, lo: int, hi: int) {
    Sorted(Contents(t)) && KeysBetween(Contents(t), lo, hi) && lo <= hi
  }

  lemma BoundsOrdered(keys: seq<int>, lo: int, hi: int, i: nat, j: nat)
    requires SortedKeys(keys, lo, hi) && i < j <= |keys| + 1
    ensures lo <= LoOf(keys, lo, i) <= HiOf(keys, hi, i) <= HiOf(keys, hi, j - 1) <= hi
    ensures i + 1 < j ==> LoOf(keys, lo, i + 1) == HiOf(keys, hi, i)
  {
  }

  ghost predicate KidsOk(keys: seq<int>, kids: seq<Tree>, lo: int, hi: int)
  {
    && |kids| == |keys| + 1
    && SortedKeys(keys, lo, hi)
    && forall k :: 0 <= k < |kids| ==> ContentsOk(kids[k], LoOf(keys, lo, k), HiOf(keys, hi, k))
  }

  /** Kids i..j of a node hold sorted keys between the separators around them. */
  lemma {:induction false} RangeSorted(keys: seq<int>, kids: seq<Tree>, lo: int, hi: int, i: nat, j: nat)
    requires KidsOk(keys, kids, lo, hi) && i <= j <= |kids|
    ensures Sorted(Flat(kids[i..j]))
    ensures i < j ==> KeysBetween(Flat(kids[i..j]), LoOf(keys, lo, i), HiOf(keys, hi, j - 1))
    ensures i == j ==> Flat(kids[i..j]) == []
    decreases j - i
  {
    hide LoOf, HiOf, SortedKeys;
    if i < j {
      var s := kids[i..j];
      assert s[0] == kids[i] && s[1..] == kids[i + 1..j];
      RangeSorted(keys, kids, lo, hi, i + 1, j);
      BoundsOrdered(keys, lo, hi, i, j);
      SortedConcat(Contents(kids[i]), Flat(kids[i + 1..j]), HiOf(keys, hi, i));
    }
  }

  lemma {:induction false} ContentsSorted(t: Tree, lo: int, hi: int, h: nat)
    requires Within(t, lo, hi, h)
    ensures ContentsOk(t, lo, hi)
    decreases t, 1
  {
    if t.Node? {
      hide ContentsOk;
      BranchesOk(t.keys, t.kids, lo, hi, h - 1);
      RangeSorted(t.keys, t.kids, lo, hi, 0, |t.kids|);
      assert t.kids[0..|t.kids|] == t.kids;
      NodeOk(t, lo, hi);
    }
  }

  lemma NodeOk(t: Tree, lo: int, hi: int)
    requires t.Node? && |t.kids| == |t.keys| + 1 && lo <= hi
    requires Sorted(Flat(t.kids)) && KeysBetween(Flat(t.kids), LoOf(t.keys, lo, 0), HiOf(t.keys, hi, |t.keys|))
    ensures ContentsOk(t, lo, hi)
  {
  }

  lemma {:induction false} BranchesOk(keys: seq<int>, kids: seq<Tree>, lo: int, hi: int, h: nat)
    requires Branches(keys, kids, lo, hi, h)
    ensures KidsOk(keys, kids, lo, hi)
    decreases kids, 0
  {
    hide ContentsOk;
    forall k | 0 <= k < |kids|
      ensures ContentsOk(kids[k], LoOf(keys, lo, k), HiOf(keys, hi, k))
    {
      ContentsSorted(kids[k], LoOf(keys, lo, k), HiOf(keys, hi, k), h);
    }
  }

  // ---------------------------------------------------------------- routing

  /** The kid a key is routed to: the number of smaller separators. */
  function KeyIndex(keys: seq<int>, key: int): (l: nat)
    ensures l <= |keys|
    ensures forall i :: 0 <= i < l ==> keys[i] < key
    ensures l < |keys| ==> key <= keys[l]
    decreases |keys|
  {
    if keys == [] || key <= keys[0] then 0 else 1 + KeyIndex(keys[1..], key)
  }

  lemma KeyIndexIs(keys: seq<int>, key: int, l: nat)
    requires l <= |keys|
    requires l > 0 ==> keys[l - 1] < key
    requires l < |keys| ==> key <= keys[l]
    requires forall i, j :: 0 <= i <= j < |keys| ==> keys[i] <= keys[j]
    ensures KeyIndex(keys, key) == l
  {
    hide KeyIndex;
  }

  /** The entries of the leaf that a key is routed to. */
  ghost function LeafFor(t: Tree, key: int): seq<Pair>
    decreases t, 0
  {
    match t
    case Leaf(es) => es
    case Node(keys, _, kids) => RouteTo(keys, kids, key)
  }

  ghost function RouteTo(keys: seq<int>, kids: seq<Tree>, key: int): seq<Pair>
    decreases kids, 1
  {
    var l := KeyIndex(keys, key);
    if l < |kids| then LeafFor(kids[l], key) else []
  }

  /** An entry with the key is in the leaf that the key is routed to. */
  ghost predicate Reaches(t: Tree, key: int) {
    HasKey(LeafFor(t, key), key)
  }

  ghost predicate BranchReaches(keys: seq<int>, kids: seq<Tree>, key: int) {
    HasKey(RouteTo(keys, kids, key), key)
  }

  /** Every stored key can be found by routing. */
  ghost predicate AllReachable(t: Tree) {
    forall key :: HasKey(Contents(t), key) ==> Reaches(t, key)
  }

  /** Entries in kids before the routed one are smaller, those in later ones are not. */
  lemma RouteCut(keys: seq<int>, kids: seq<Tree>, lo: int, hi: int, h: nat, key: int)
    requires Branches(keys, kids, lo, hi, h)
    ensures var l := KeyIndex(keys, key);
      && l < |kids|
      && Flat(kids) == Flat(kids[..l]) + Contents(kids[l]) + Flat(kids[l + 1..])
      && AllBelow(Flat(kids[..l]), key)
      && AllFrom(Flat(kids[l + 1..]), key)
  {
    hide Flat, Contents, KeyIndex, Within, KidsOk;
    var l := KeyIndex(keys, key);
    BranchesOk(keys, kids, lo, hi, h);
    RangeSorted(keys, kids, lo, hi, 0, l);
    RangeSorted(keys, kids, lo, hi, l + 1, |kids|);
    assert kids[0..l] == kids[..l];
    assert kids[l + 1..|kids|] == kids[l + 1..];
    CutAt(kids, l);
    FlatAround(kids[..l], [kids[l]], kids[l + 1..]);
    FlatOne(kids[l]);
  }

  /** All entries left of the leaf reached are smaller than the key, all right of it are not. */
  lemma {:induction false} LeafCut(t: Tree, lo: int, hi: int, h: nat, key: int)
      returns (before: seq<Pair>, after: seq<Pair>)
    requires Within(t, lo, hi, h)
    ensures Contents(t) == before + LeafFor(t, key) + after
    ensures AllBelow(before, key) && AllFrom(after, key)
    decreases t
  {
    before, after := [], [];
    if t.Node? {
      RouteCut(t.keys, t.kids, lo, hi, h - 1, key);
      var l := KeyIndex(t.keys, key);
      var b, a := LeafCut(t.kids[l], LoOf(t.keys, lo, l), HiOf(t.keys, hi, l), h - 1, key);
      before, after := Flat(t.kids[..l]) + b, a + Flat(t.kids[l + 1..]);
    }
  }

  /** Looking in the leaf reached finds the leftmost entry, if that leaf has one at all. */
  lemma FindInLeaf(t: Tree, lo: int, hi: int, h: nat, key: int)
    requires Within(t, lo, hi, h)
    ensures Reaches(t, key) ==> Find(LeafFor(t, key), key) == Find(Contents(t), key)
    ensures !Reaches(t, key) ==> Find(LeafFor(t, key), key) == 0
  {
    hide LowerBound, Within, LeafFor, Contents;
    var before, after := LeafCut(t, lo, hi, h, key);
    var es := LeafFor(t, key);
    LowerBoundInside(before, es, after, key);
    ContentsSorted(t, lo, hi, h);
    if Reaches(t, key) {
      var i :| 0 <= i < |es| && es[i].key == key;
      assert (before + es + after)[|before| + LowerBound(es, key)] == es[LowerBound(es, key)];
      LeafSorted(before, es, after);
      assert es[LowerBound(es, key)].key <= es[i].key;
    }
  }

  lemma LeafSorted(before: seq<Pair>, es: seq<Pair>, after: seq<Pair>)
    requires Sorted(before + es + after)
    ensures Sorted(es)
  {
    assert forall i :: 0 <= i < |es| ==> es[i] == (before + es + after)[|before| + i];
  }
}
