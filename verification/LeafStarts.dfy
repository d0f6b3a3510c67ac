/** Which keys share a leaf of a B+-tree, told by the operations alone: the leaves are the stretches between
    some start keys, and a full stretch is parted at one of its keys. */
module LeafStarts {
  import opened SortedPairs
  import opened KeyRanges
  import W = NodeWeb

  /** A leaf of `full` entries is parted at its entry number `half`, counted from 0. */
  datatype Split = Split(full: nat, half: nat)

  /** The bindings, and the least key that each leaf covers. */
  datatype Parts = Parts(m: map<int, int>, starts: set<int>)

  datatype Op = Put(key: int, value: int) | Rebind(key: int, value: int) | Remove(key: int)

  ghost function Step(m: map<int, int>, op: Op): map<int, int> {
    match op
    case Put(k, v) => m[k := v]
    case Rebind(k, v) => if k in m then m[k := v] else m
    case Remove(k) => m - {k}
  }

  /** No leaf starts between the keys. */
  ghost predicate Together(starts: set<int>, x: int, y: int) {
    && 0 <= x < TOP && 0 <= y < TOP
    && forall s :: s in starts ==> !(x < s <= y) && !(y < s <= x)
  }

  /** The bound keys in the leaf of a key. */
  ghost function Near(p: Parts, key: int): set<int> {
    set x | x in p.m && Together(p.starts, x, key)
  }

  ghost function Smaller(s: set<int>, x: int): set<int> {
    set y | y in s && y < x
  }

  /** The element, if any, that n others are smaller than. */
  ghost function Ranked(s: set<int>, n: nat): set<int> {
    set x | x in s && |Smaller(s, x)| == n
  }

  /** A put into a full leaf parts it. */
  ghost function StepParts(split: Split, p: Parts, op: Op): Parts {
    var near := Near(p, op.key);
    Parts(Step(p.m, op), if op.Put? && |near| == split.full then p.starts + Ranked(near, split.half) else p.starts)
  }

  ghost function Starts(info: Info): set<int> {
    set n | n in info && info[n].level == 0 :: info[n].lo
  }

  // ---------------------------------------------------------------- sequences and sets of keys

  ghost function Keys(a: seq<Pair>): (r: set<int>)
    ensures forall k :: k in r <==> HasKey(a, k)
  {
    set i | 0 <= i < |a| :: a[i].key
  }

  lemma {:induction false} KeysSize(a: seq<Pair>)
    requires Strict(a)
    ensures |Keys(a)| == |a|
    decreases |a|
  {
    if a != [] {
      var n := |a| - 1;
      var b := a[..n];
      KeysSize(b);
      assert forall i :: 0 <= i < n ==> b[i] == a[i];
      forall k ensures k in Keys(a) <==> k in Keys(b) + {a[n].key} {
        if HasKey(a, k) && k != a[n].key {
          var i :| 0 <= i < |a| && a[i].key == k;
          assert b[i].key == k;
        }
      }
      assert Keys(a) == Keys(b) + {a[n].key};
    } else {
      assert Keys(a) == {};
    }
  }

  lemma SmallerKeys(a: seq<Pair>, i: nat)
    requires Strict(a) && i < |a|
    ensures |Smaller(Keys(a), a[i].key)| == i
  {
    var b := a[..i];
    assert forall j :: 0 <= j < i ==> b[j] == a[j];
    forall k ensures k in Smaller(Keys(a), a[i].key) <==> k in Keys(b) {
      if HasKey(a, k) && k < a[i].key {
        var j :| 0 <= j < |a| && a[j].key == k;
        assert b[j].key == k;
      }
    }
    assert Smaller(Keys(a), a[i].key) == Keys(b);
    KeysSize(b);
  }

  /** The key of an entry is the one of its rank. */
  lemma RankedKey(a: seq<Pair>, n: nat)
    requires Strict(a) && n < |a|
    ensures Ranked(Keys(a), n) == {a[n].key}
  {
    SmallerKeys(a, n);
    assert HasKey(a, a[n].key);
    forall k | k in Ranked(Keys(a), n) ensures k == a[n].key {
      var i :| 0 <= i < |a| && a[i].key == k;
      SmallerKeys(a, i);
    }
  }

  // ---------------------------------------------------------------- leaves of a tree

  /** Keys are together if and only if one leaf covers both. */
  lemma LeafIsTogether(nodes: W.Views, info: Info, root: Ptr, leaf: Ptr, key: int, x: int)
    requires W.Shape(nodes, info, map[], root) && W.Covers(nodes, info, leaf, key)
    requires leaf in info && info[leaf].level == 0 && 0 <= x < TOP
    ensures Together(Starts(info), x, key) <==> info[leaf].lo <= x < info[leaf].hi
  {
    hide *;
    W.ShapeParts(nodes, info, map[], root);
    W.CoversParts(nodes, info, leaf, key);
    W.InsideTop(nodes, info, root, leaf);
    LeafFits(nodes, info, root, leaf);
    if info[leaf].lo <= x < info[leaf].hi {
      forall s | s in Starts(info) ensures !(x < s <= key) && !(key < s <= x) {
        var n := StartOf(info, s);
        LeafFits(nodes, info, root, n);
        if n != leaf { ApartAt(info, leaf, n); }
      }
      TogetherIs(Starts(info), x, key);
    } else if x < info[leaf].lo {
      StartIn(info, leaf);
      NotTogether(Starts(info), x, key, info[leaf].lo);
    } else {
      W.RootCovers(nodes, info, root, info[leaf].hi);
      var n := W.CoveringLeaf(nodes, info, root, root, info[leaf].hi);
      W.CoversParts(nodes, info, n, info[leaf].hi);
      ApartAt(info, leaf, n);
      StartIn(info, n);
      NotTogether(Starts(info), x, key, info[leaf].hi);
    }
  }

  lemma LeafFits(nodes: W.Views, info: Info, root: Ptr, n: Ptr)
    requires W.Shape(nodes, info, map[], root) && n in info
    ensures info[n].lo < info[n].hi
  {
    hide *;
    W.ShapeParts(nodes, info, map[], root);
    W.ShapeAt(nodes, info, map[], root, n);
    W.NodeFitsParts(nodes, info, n);
  }

  lemma StartOf(info: Info, s: int) returns (n: Ptr)
    requires s in Starts(info)
    ensures n in info && info[n].level == 0 && info[n].lo == s
  {
    n :| n in info && info[n].level == 0 && info[n].lo == s;
  }

  lemma StartIn(info: Info, n: Ptr)
    requires n in info && info[n].level == 0
    ensures info[n].lo in Starts(info)
  {
  }

  lemma TogetherIs(starts: set<int>, x: int, y: int)
    requires 0 <= x < TOP && 0 <= y < TOP
    requires forall s :: s in starts ==> !(x < s <= y) && !(y < s <= x)
    ensures Together(starts, x, y)
  {
  }

  lemma NotTogether(starts: set<int>, x: int, y: int, s: int)
    requires s in starts && (x < s <= y || y < s <= x)
    ensures !Together(starts, x, y)
  {
  }

  /** The leaf that covers a key shows exactly the bound keys near it. */
  lemma NearIsLive(nodes: W.Views, info: Info, root: Ptr, abs: map<int, int>, leaf: Ptr, key: int)
    requires W.Shape(nodes, info, map[], root) && W.Agree(nodes, info, abs) && W.Covers(nodes, info, leaf, key)
    requires leaf in info && info[leaf].level == 0
    ensures var live := W.LiveOf(nodes, leaf);
      Near(Parts(abs, Starts(info)), key) == Keys(live) && |Keys(live)| == |live| && Strict(live)
  {
    hide *;
    W.CoversParts(nodes, info, leaf, key);
    W.LeafDecides(nodes, info, root, abs, leaf, key);
    W.InsideTop(nodes, info, root, leaf);
    var live := W.LiveOf(nodes, leaf);
    KeysSize(live);
    forall x ensures x in Near(Parts(abs, Starts(info)), key) <==> x in Keys(live) {
      NearIs(Parts(abs, Starts(info)), key, x);
      KeyBound(live, info[leaf].lo, info[leaf].hi, abs, x);
      if 0 <= x < TOP { LeafIsTogether(nodes, info, root, leaf, key, x); }
    }
  }

  lemma NearIs(p: Parts, key: int, x: int)
    ensures x in Near(p, key) <==> x in p.m && Together(p.starts, x, key)
    ensures Together(p.starts, x, key) ==> 0 <= x < TOP
  {
  }

  lemma KeyBound(live: seq<Pair>, lo: int, hi: int, abs: map<int, int>, x: int)
    requires KeysBetween(live, lo, hi - 1) && LeafAgrees(live, lo, hi, abs)
    ensures x in Keys(live) <==> HasKey(live, x)
    ensures HasKey(live, x) <==> x in abs && lo <= x < hi
  {
  }

  /** One leaf has been parted at a key; the other leaves are the old ones. */
  ghost predicate LeafParted(info: Info, info': Info, leaf: Ptr, mid: int) {
    && leaf in info && info[leaf].level == 0
    && leaf in info' && info'[leaf] == Range(info[leaf].lo, mid, 0)
    && (forall n :: n in info && info[n].level == 0 && n != leaf ==> n in info' && info'[n] == info[n])
    && exists m :: m in info' && m !in info && info'[m] == Range(mid, info[leaf].hi, 0)
                   && forall n :: n in info' && info'[n].level == 0 ==> n == m || (n in info && info[n].level == 0)
  }

  /** Parting a leaf adds one start. */
  lemma PartedStarts(info: Info, info': Info, leaf: Ptr, mid: int)
    requires LeafParted(info, info', leaf, mid)
    ensures Starts(info') == Starts(info) + {mid}
  {
    var m :| m in info' && m !in info && info'[m] == Range(mid, info[leaf].hi, 0)
                   && forall n :: n in info' && info'[n].level == 0 ==> n == m || (n in info && info[n].level == 0);
    assert info'[leaf].lo == info[leaf].lo;
    forall s | s in Starts(info') ensures s in Starts(info) + {mid} {
      var n := StartOf(info', s);
    }
    forall s | s in Starts(info) ensures s in Starts(info') {
      var n := StartOf(info, s);
      assert n in info' && info'[n].level == 0 && info'[n].lo == s;
    }
    assert info'[m].lo == mid;
  }

  // ---------------------------------------------------------------- runs

  /** The bindings and the leaves that the operations lead to. */
  ghost function PartsAfter(split: Split, p: Parts, ops: seq<Op>): Parts
    decreases |ops|
  {
    if ops == [] then p else StepParts(split, PartsAfter(split, p, ops[..|ops| - 1]), ops[|ops| - 1])
  }

  /** Keys are in range; absent ones are put, present ones removed. */
  ghost predicate Allowed(m: map<int, int>, op: Op) {
    0 <= op.key < TOP && (op.Put? ==> op.key !in m) && (op.Remove? ==> op.key in m)
  }

  ghost predicate AllAllowed(split: Split, p: Parts, ops: seq<Op>) {
    forall i :: 0 <= i < |ops| ==> Allowed(PartsAfter(split, p, ops[..i]).m, ops[i])
  }

  lemma PartsNone(split: Split, p: Parts, ops: seq<Op>)
    ensures PartsAfter(split, p, ops[..0]) == p
  {
  }

  lemma PartsMore(split: Split, p: Parts, ops: seq<Op>, i: nat)
    requires i < |ops|
    ensures PartsAfter(split, p, ops[..i + 1]) == StepParts(split, PartsAfter(split, p, ops[..i]), ops[i])
  {
    assert ops[..i + 1][..i] == ops[..i];
  }

  lemma AllowedAt(split: Split, p: Parts, ops: seq<Op>, i: nat)
    requires AllAllowed(split, p, ops) && i < |ops|
    ensures Allowed(PartsAfter(split, p, ops[..i]).m, ops[i])
  {
  }

  lemma AllowedBefore(split: Split, p: Parts, ops: seq<Op>)
    requires ops != [] && AllAllowed(split, p, ops)
    ensures AllAllowed(split, p, ops[..|ops| - 1])
  {
    var before := ops[..|ops| - 1];
    forall i | 0 <= i < |before| ensures Allowed(PartsAfter(split, p, before[..i]).m, before[i]) {
      assert before[..i] == ops[..i];
    }
  }

  lemma AllowedIs(m: map<int, int>, op: Op)
    requires Allowed(m, op)
    ensures 0 <= op.key < TOP && (op.Put? ==> op.key !in m) && (op.Remove? ==> op.key in m)
  {
  }

  lemma StepIs(split: Split, p: Parts, op: Op)
    ensures StepParts(split, p, op).m == (match op
      case Put(k, v) => p.m[k := v]
      case Rebind(k, v) => (if k in p.m then p.m[k := v] else p.m)
      case Remove(k) => p.m - {k})
    ensures StepParts(split, p, op).starts
      == if op.Put? && |Near(p, op.key)| == split.full then p.starts + Ranked(Near(p, op.key), split.half) else p.starts
  {
  }

  /** A tree of one leaf. */
  lemma FirstStarts(root: Ptr)
    ensures Starts(map[root := Range(0, TOP, 0)]) == {0}
  {
    var info: Info := map[root := Range(0, TOP, 0)];
    assert info[root].lo == 0;
  }

  // ---------------------------------------------------------------- the start of a leaf

  /** The least key of the leaf of a key. */
  ghost predicate IsStart(starts: set<int>, s: int, key: int) {
    s in starts && s <= key && forall t :: t in starts && t <= key ==> t <= s
  }

  /** The leaf that covers the key starts there. */
  lemma LeafHasStart(nodes: W.Views, info: Info, root: Ptr, leaf: Ptr, key: int)
    requires W.Shape(nodes, info, map[], root) && W.Covers(nodes, info, leaf, key)
    requires leaf in info && info[leaf].level == 0
    ensures IsStart(Starts(info), info[leaf].lo, key)
  {
    hide *;
    W.ShapeParts(nodes, info, map[], root);
    W.CoversParts(nodes, info, leaf, key);
    StartIn(info, leaf);
    forall t | t in Starts(info) && t <= key ensures t <= info[leaf].lo {
      var n := StartOf(info, t);
      LeafFits(nodes, info, root, n);
      if n != leaf { ApartAt(info, leaf, n); }
    }
    IsStartIs(Starts(info), info[leaf].lo, key);
  }

  lemma IsStartIs(starts: set<int>, s: int, key: int)
    requires s in starts && s <= key && forall t :: t in starts && t <= key ==> t <= s
    ensures IsStart(starts, s, key)
  {
  }

  /** The start is the only one. */
  ghost function LeafStart(starts: set<int>, key: int): (s: int)
    ensures forall t :: IsStart(starts, t, key) ==> s == t
  {
    if exists t :: IsStart(starts, t, key) then var t :| IsStart(starts, t, key); t else 0
  }

  /** Smaller keys are in the leaf of a key if they are not below its start. */
  lemma NearStart(starts: set<int>, s: int, key: int, k: int)
    requires IsStart(starts, s, key) && 0 <= k < key < TOP
    ensures Together(starts, k, key) <==> s <= k
  {
  }
}
