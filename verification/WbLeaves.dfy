/** The leaves of a wB+-tree over runs of operations: which keys a leaf holds, and when none is empty. */
module WbLeaves {
  import opened SortedPairs
  import opened KeyRanges
  import opened LeafStarts
  import opened WbNode
  import opened WbCrash
  import opened WbShape
  import W = NodeWeb

  /** A leaf of seven entries is parted at its fifth. */
  const SPLIT: Split := Split(7, 4)

  lemma SplitIs()
    ensures SPLIT.full == 7 && SPLIT.half == 4
  {
  }

  lemma CoversWeb(nodes: Nodes, info: Info, n: Ptr, key: int)
    ensures Covers(nodes, info, n, key) <==> W.Covers(V(nodes), info, n, key)
  {
    Seen(nodes);
  }

  /** The leaf that covers a key shows exactly the bound keys near it. */
  lemma NearIsLive(nodes: Nodes, info: Info, root: Ptr, abs: map<int, int>, leaf: Ptr, key: int)
    requires Shape(nodes, info, map[], root) && Agree(nodes, info, abs) && Covers(nodes, info, leaf, key)
    requires leaf in info && info[leaf].level == 0
    ensures Near(Parts(abs, Starts(info)), key) == Keys(LiveOf(nodes, leaf))
    ensures |Keys(LiveOf(nodes, leaf))| == |LiveOf(nodes, leaf)| && Strict(LiveOf(nodes, leaf))
  {
    hide *;
    ShapeWeb(nodes, info, map[], root);
    AgreeWeb(nodes, info, abs);
    Seen(nodes);
    CoversWeb(nodes, info, leaf, key);
    LeafStarts.NearIsLive(V(nodes), info, root, abs, leaf, key);
  }

  // ---------------------------------------------------------------- no leaf is empty

  /** Every leaf holds a key. */
  ghost predicate NoneEmpty(p: Parts) {
    forall k :: 0 <= k < TOP ==> Near(p, k) != {}
  }

  lemma TogetherSame(starts: set<int>, x: int, y: int, z: int)
    requires Together(starts, x, y)
    ensures Together(starts, x, z) <==> Together(starts, y, z)
    ensures Together(starts, y, x)
  {
  }

  /** A put leaves no leaf empty. */
  lemma PutFills(p: Parts, key: int, value: int)
    requires 0 <= key < TOP && key !in p.m && forall k ::
      0 <= k < TOP && !Together(p.starts, k, key) ==> Near(p, k) != {}
    ensures NoneEmpty(StepParts(SPLIT, p, Put(key, value)))
  {
    var q := StepParts(SPLIT, p, Put(key, value));
    var near := Near(p, key);
    forall k | 0 <= k < TOP ensures Near(q, k) != {} {
      if !Together(p.starts, k, key) {
        var x :| x in Near(p, k);
        StillNear(p, q, key, k, x);
      } else if |near| != 7 {
        assert key in Near(q, k) by { TogetherSame(p.starts, k, key, key); }
      } else {
        PartFilled(p, q, key, k);
      }
    }
  }

  /** A key that was near another one, in a leaf that is not parted, is so still. */
  lemma StillNear(p: Parts, q: Parts, key: int, k: int, x: int)
    requires x in Near(p, k) && !Together(p.starts, k, key) && x in q.m
    requires q.starts == p.starts || q.starts == p.starts + Ranked(Near(p, key), 4)
    ensures x in Near(q, k)
  {
    forall s | s in Ranked(Near(p, key), 4) ensures !(x < s <= k) && !(k < s <= x) {
      assert Together(p.starts, s, key);
      if x < s <= k || k < s <= x {
        assert Together(p.starts, s, k);
        TogetherSame(p.starts, s, k, key);
      }
    }
  }

  /** Of a leaf of seven keys, parted at the fifth, both parts hold a key. */
  lemma PartFilled(p: Parts, q: Parts, key: int, k: int)
    requires 0 <= key < TOP && 0 <= k < TOP && Together(p.starts, k, key) && |Near(p, key)| == 7
    requires q.starts == p.starts + Ranked(Near(p, key), 4) && forall x :: x in p.m ==> x in q.m
    ensures Near(q, k) != {}
  {
    var near := Near(p, key);
    if Ranked(near, 4) == {} {
      var x :| x in near;
      TogetherSame(p.starts, x, key, k);
      TogetherSame(p.starts, k, key, x);
      assert x in Near(q, k);
    } else {
      var mid :| mid in Ranked(near, 4);
      forall x | x in Ranked(near, 4) ensures x == mid { SameRank(near, x, mid); }
      assert Ranked(near, 4) == {mid};
      if k >= mid {
        assert Together(p.starts, mid, k) by { TogetherSame(p.starts, mid, key, k); TogetherSame(p.starts, k, key, k); }
        assert mid in Near(q, k);
      } else {
        var x :| x in Smaller(near, mid);
        assert Together(p.starts, x, k) by { TogetherSame(p.starts, x, key, k); TogetherSame(p.starts, k, key, k); }
        assert x in Near(q, k);
      }
    }
  }

  lemma SameRank(s: set<int>, x: int, y: int)
    requires x in s && y in s && |Smaller(s, x)| == |Smaller(s, y)|
    ensures x == y
  {
    if x < y {
      Fewer(Smaller(s, x), Smaller(s, y), x);
    } else if y < x {
      Fewer(Smaller(s, y), Smaller(s, x), y);
    }
  }

  lemma Fewer(a: set<int>, b: set<int>, x: int)
    requires a <= b && x in b && x !in a
    ensures |a| < |b|
  {
    var c := b - a;
    assert x in c && a + c == b && a !! c;
    assert |b| == |a| + |c|;
  }

  /** A removal that leaves its leaf a key leaves every leaf one. */
  lemma RemovalFills(p: Parts, key: int)
    requires NoneEmpty(p) && 0 <= key < TOP && Near(StepParts(SPLIT, p, Remove(key)), key) != {}
    ensures NoneEmpty(StepParts(SPLIT, p, Remove(key)))
  {
    var q := StepParts(SPLIT, p, Remove(key));
    forall k | 0 <= k < TOP ensures Near(q, k) != {} {
      if Together(p.starts, k, key) {
        var x :| x in Near(q, key);
        TogetherSame(p.starts, k, key, x);
        TogetherSame(p.starts, x, key, k);
        assert x in Near(q, k);
      } else {
        var x :| x in Near(p, k);
        assert x != key by { if x == key { TogetherSame(p.starts, key, k, key); } }
        assert x in Near(q, k);
      }
    }
  }

  /** Removals leave their leaves a key. */
  ghost predicate LeavesKeys(p: Parts, ops: seq<Op>) {
    forall i :: 0 <= i < |ops| && ops[i].Remove? ==> Near(PartsAfter(SPLIT, p, ops[..i + 1]), ops[i].key) != {}
  }

  /** If no removal takes the last key of a leaf, no leaf is empty, from the first put on. */
  lemma {:induction false} RunFills(ops: seq<Op>)
    requires ops != [] && ops[0].Put? && AllAllowed(SPLIT, Parts(map[], {0}), ops) && LeavesKeys(Parts(map[], {0}), ops)
    ensures NoneEmpty(PartsAfter(SPLIT, Parts(map[], {0}), ops))
    decreases |ops|
  {
    var first, n := Parts(map[], {0}), |ops| - 1;
    var before, op := ops[..n], ops[n];
    assert ops[..n + 1] == ops;
    var p := PartsAfter(SPLIT, first, before);
    assert Allowed(p.m, op);
    if n == 0 {
      assert before == [] && p == first;
      forall k | 0 <= k < TOP ensures Together(p.starts, k, op.key) {}
      PutFills(p, op.key, op.value);
    } else {
      BeforeAllowed(first, ops);
      RunFills(before);
      match op {
        case Put(k, v) => PutFills(p, k, v);
        case Rebind(k, v) => RebindFills(p, k, v);
        case Remove(k) => RemovalFills(p, k);
      }
    }
  }

  lemma RebindFills(p: Parts, key: int, value: int)
    requires NoneEmpty(p)
    ensures NoneEmpty(StepParts(SPLIT, p, Rebind(key, value)))
  {
    var q := StepParts(SPLIT, p, Rebind(key, value));
    forall k | 0 <= k < TOP ensures Near(q, k) != {} {
      assert Near(q, k) == Near(p, k);
    }
  }

  lemma BeforeAllowed(p: Parts, ops: seq<Op>)
    requires ops != [] && AllAllowed(SPLIT, p, ops) && LeavesKeys(p, ops)
    ensures AllAllowed(SPLIT, p, ops[..|ops| - 1]) && LeavesKeys(p, ops[..|ops| - 1])
  {
    var before := ops[..|ops| - 1];
    AllowedBefore(SPLIT, p, ops);
    forall i | 0 <= i < |before| && before[i].Remove?
        ensures Near(PartsAfter(SPLIT, p, before[..i + 1]), before[i].key) != {} {
      assert before[..i + 1] == ops[..i + 1];
    }
  }
}
