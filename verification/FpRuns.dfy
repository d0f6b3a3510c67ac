/** Runs of operations on an FPTree, the order of its leaf list, and what its scans return. */
module FpRuns {
  import opened SortedPairs
  import opened KeyRanges
  import opened LeafStarts
  import opened FpNode
  import opened FpShape
  import opened FpTree
  import W = NodeWeb

  /** A leaf of 63 entries is parted at its 32nd. */
  const SPLIT: Split := Split(63, 31)

  lemma SplitIs()
    ensures SPLIT.full == 63 && SPLIT.half == 31
  {
  }

  ghost predicate NoRemoves(ops: seq<Op>) {
    forall i :: 0 <= i < |ops| ==> !ops[i].Remove?
  }

  lemma NoRemoveAt(ops: seq<Op>, i: nat)
    requires NoRemoves(ops) && i < |ops|
    ensures !ops[i].Remove?
  {
  }

  /** After any allowed run the tree holds exactly the map, and its leaves are the stretches of keys that the
      operations lead to. */
  method Replay(t: Tree, ops: seq<Op>)
    requires t.Valid() && AllAllowed(SPLIT, Parts(t.abs, Starts(t.info)), ops) && NoRemoves(ops)
    modifies t
    ensures t.Valid() && Parts(t.abs, Starts(t.info)) == PartsAfter(SPLIT, Parts(old(t.abs), Starts(old(t.info))), ops)
  {
    hide *;
    ghost var start := Parts(t.abs, Starts(t.info));
    PartsNone(SPLIT, start, ops);
    var i := 0;
    while i < |ops|
      invariant i <= |ops| && t.Valid() && Parts(t.abs, Starts(t.info)) == PartsAfter(SPLIT, start, ops[..i])
    {
      PartsMore(SPLIT, start, ops, i);
      AllowedAt(SPLIT, start, ops, i);
      AllowedIs(t.abs, ops[i]);
      StepIs(SPLIT, Parts(t.abs, Starts(t.info)), ops[i]);
      NoRemoveAt(ops, i);
      t.ValidFacts();
      match ops[i] {
        case Put(key, value) =>
          ghost var mem0, info0, root0, abs0 := t.mem, t.info, t.root, t.abs;
          ghost var leaf := t.Insert(key, value);
          SplitIs();
          Seen(mem0);
          NearIsLive(V(mem0), info0, root0, abs0, leaf, key);
          if |Live(mem0[leaf])| == 63 {
            RankedKey(Live(mem0[leaf]), 31);
            PartedStarts(info0, t.info, leaf, Live(mem0[leaf])[31].key);
          }
        case Rebind(key, value) => var r := t.Update(key, value);
      }
      i := i + 1;
    }
    assert ops[..|ops|] == ops;
  }

  /** From an empty tree: a lookup answers as the map does. */
  method LookupAfterRun(ops: seq<Op>, key: int) returns (value: int)
    requires 0 <= key < TOP && AllAllowed(SPLIT, Parts(map[], {0}), ops) && NoRemoves(ops)
    ensures var m := PartsAfter(SPLIT, Parts(map[], {0}), ops).m; value == if key in m then m[key] else NULL
  {
    hide *;
    var t := new Tree();
    FirstStarts(t.root);
    Replay(t, ops);
    value := t.Lookup(key);
  }

  // ---------------------------------------------------------------- scans

  /** Different keys have different values. */
  ghost predicate Injective(m: map<int, int>) {
    forall x, y :: x in m && y in m && m[x] == m[y] ==> x == y
  }

  /** No bound key of the leaf of a key is smaller. */
  ghost predicate LeastInLeaf(p: Parts, key: int) {
    forall k :: k in Near(p, key) ==> key <= k
  }

  /** From an empty tree, after any allowed run, a scan from any key: it returns the values of the smallest keys
      from the start of the key's leaf on.  They are those of the smallest keys from the key itself on exactly
      if no smaller bound key is in the leaf, told by the bindings that were copied, and told by the values when
      these are different. */
  method RangeAfterRun(ops: seq<Op>, start: int, num: nat) returns (buf: seq<int>, ghost es: seq<Pair>)
    requires AllAllowed(SPLIT, Parts(map[], {0}), ops) && NoRemoves(ops) && 0 <= start < TOP && num >= 1
    ensures var p := PartsAfter(SPLIT, Parts(map[], {0}), ops);
      && IsStart(p.starts, LeafStart(p.starts, start), start)
      && IsRange(p.m, LeafStart(p.starts, start), num, buf)
      && (LeastInLeaf(p, start) ==> IsRange(p.m, start, num, buf))
      && (Injective(p.m) ==> (IsRange(p.m, start, num, buf) <==> LeastInLeaf(p, start)))
    ensures var p := PartsAfter(SPLIT, Parts(map[], {0}), ops);
      && buf == Tids(es) && FirstFrom(p.m, LeafStart(p.starts, start), num, es)
      && (FirstFrom(p.m, start, num, es) <==> LeastInLeaf(p, start))
  {
    hide *;
    var t := new Tree();
    FirstStarts(t.root);
    Replay(t, ops);
    t.ValidFacts();
    ghost var leaf;
    buf, leaf, es := t.RangeLookup(start, num);
    LeafHasStart(V(t.mem), t.info, t.root, leaf, start);
    W.CoversParts(V(t.mem), t.info, leaf, start);
    ghost var p, lo := Parts(t.abs, Starts(t.info)), t.info[leaf].lo;
    BoundInRange(t);
    LeastIs(p, lo, start);
    RangeIs(p.m, lo, num, es);
    if LeastInLeaf(p, start) { RangeIs(p.m, start, num, es); }
    if Injective(p.m) && IsRange(p.m, start, num, buf) { OnlyThese(p.m, lo, start, num, es, buf); }
  }

  lemma BoundInRange(t: Tree)
    requires t.Valid()
    ensures forall k :: k in t.abs ==> 0 <= k < TOP
  {
  }

  lemma LeastIs(p: Parts, lo: int, start: int)
    requires IsStart(p.starts, lo, start) && 0 <= start < TOP && forall k :: k in p.m ==> 0 <= k < TOP
    ensures LeastInLeaf(p, start) <==> forall k :: lo <= k < start ==> k !in p.m
  {
    forall k | k in p.m && k < start ensures k in Near(p, start) <==> lo <= k {
      NearStart(p.starts, lo, start, k);
    }
  }

  lemma RangeIs(abs: map<int, int>, lo: int, num: nat, es: seq<Pair>)
    requires FirstFrom(abs, lo, num, es)
    ensures IsRange(abs, lo, num, Tids(es))
  {
  }

  /** Different values come from one sequence of bindings only. */
  lemma OnlyThese(abs: map<int, int>, lo: int, start: int, num: nat, es: seq<Pair>, buf: seq<int>)
    requires Injective(abs) && FirstFrom(abs, lo, num, es) && buf == Tids(es) && IsRange(abs, start, num, buf)
    ensures FirstFrom(abs, start, num, es)
  {
    var es': seq<Pair> :| FirstFrom(abs, start, num, es') && buf == Tids(es');
    forall i | 0 <= i < |es| ensures es[i] == es'[i] {
      assert abs[es[i].key] == es[i].tid == buf[i] == es'[i].tid == abs[es'[i].key];
    }
    assert es == es';
  }

  /** From an empty tree with two bindings, a scan from the larger key returns the value of the smaller one. */
  method SmallerKeyFirst(a: int, v: int, b: int, w: int) returns (buf: seq<int>)
    requires 0 <= a < b < TOP
    ensures buf == [v]
  {
    var ops := [Put(a, v), Put(b, w)];
    TwoPuts(a, v, b, w);
    ghost var es;
    hide *;
    buf, es := RangeAfterRun(ops, b, 1);
    StartIsZero(b);
    FirstOfTwo(a, v, b, w, es);
  }

  lemma TwoPuts(a: int, v: int, b: int, w: int)
    requires 0 <= a < b < TOP
    ensures var ops, p := [Put(a, v), Put(b, w)], Parts(map[], {0});
      && AllAllowed(SPLIT, p, ops) && NoRemoves(ops)
      && PartsAfter(SPLIT, p, ops) == Parts(map[a := v, b := w], {0})
  {
    var ops, p := [Put(a, v), Put(b, w)], Parts(map[], {0});
    PartsNone(SPLIT, p, ops);
    PartsMore(SPLIT, p, ops, 0);
    PartsMore(SPLIT, p, ops, 1);
    assert Near(p, a) == {};
    FewNear(Parts(map[a := v], {0}), a, b);
    assert ops[..2] == ops;
    assert map[a := v][b := w] == map[a := v, b := w];
  }

  lemma FewNear(p: Parts, a: int, b: int)
    requires p.m.Keys == {a}
    ensures |Near(p, b)| < 63
  {
    if Near(p, b) != {} { assert Near(p, b) == {a}; }
  }

  lemma StartIsZero(key: int)
    requires 0 <= key
    ensures LeafStart({0}, key) == 0
  {
    assert IsStart({0}, 0, key);
  }

  lemma FirstOfTwo(a: int, v: int, b: int, w: int, es: seq<Pair>)
    requires 0 <= a < b && FirstFrom(map[a := v, b := w], 0, 1, es)
    ensures Tids(es) == [v]
  {
    var abs := map[a := v, b := w];
    assert HasKey(es, a);
  }

  /** A scan from the smallest key returns the values of the num smallest keys. */
  method SmallestAfterRun(ops: seq<Op>, start: int, num: nat) returns (buf: seq<int>)
    requires AllAllowed(SPLIT, Parts(map[], {0}), ops) && NoRemoves(ops) && num >= 1 && 0 <= start < TOP
    requires var m := PartsAfter(SPLIT, Parts(map[], {0}), ops).m; start in m && forall k :: k in m ==> start <= k
    ensures IsRange(PartsAfter(SPLIT, Parts(map[], {0}), ops).m, start, num, buf)
  {
    ghost var es;
    ghost var p := PartsAfter(SPLIT, Parts(map[], {0}), ops);
    assert LeastInLeaf(p, start);
    hide *;
    buf, es := RangeAfterRun(ops, start, num);
  }

  /** There is only one answer to a scan. */
  lemma {:induction false} OneRange(abs: map<int, int>, lo: int, num: nat, a: seq<Pair>, b: seq<Pair>, n: nat)
    requires FirstFrom(abs, lo, num, a) && FirstFrom(abs, lo, num, b) && n <= |a|
    ensures n <= |b| && a[..n] == b[..n]
    decreases n
  {
    if n > 0 {
      OneRange(abs, lo, num, a, b, n - 1);
      assert forall i :: 0 <= i < n - 1 ==> a[..n - 1][i] == a[i] && b[..n - 1][i] == b[i];
      NextInRange(abs, lo, num, a, b, n);
      assert a[..n] == a[..n - 1] + [a[n - 1]] && b[..n] == b[..n - 1] + [b[n - 1]];
    }
  }

  lemma NextInRange(abs: map<int, int>, lo: int, num: nat, a: seq<Pair>, b: seq<Pair>, n: nat)
    requires FirstFrom(abs, lo, num, a) && FirstFrom(abs, lo, num, b) && 0 < n <= |a| && n - 1 <= |b|
    requires forall i :: 0 <= i < n - 1 ==> a[i] == b[i]
    ensures n <= |b| && b[n - 1] == a[n - 1]
  {
    RangeHas(abs, lo, num, b, a[n - 1].key);
    if n <= |b| { RangeHas(abs, lo, num, a, b[n - 1].key); }
  }

  /** A bound key is among those listed, unless num smaller ones are. */
  lemma RangeHas(abs: map<int, int>, lo: int, num: nat, es: seq<Pair>, x: int)
    requires FirstFrom(abs, lo, num, es) && lo <= x && x in abs
    ensures HasKey(es, x) || (|es| == num && forall i :: 0 <= i < |es| ==> es[i].key < x)
  {
  }

  // ---------------------------------------------------------------- the leaf list

  /** Following the list from its first leaf: neighbouring leaves cover neighbouring ranges, up to the end. */
  ghost predicate IsList(mem: Memory, info: Info, leaves: seq<Ptr>) {
    && leaves != []
    && (forall i :: 0 <= i < |leaves| ==>
       leaves[i] in mem && leaves[i] in info && mem[leaves[i]].LeafNode? && info[leaves[i]].level == 0)
    && (forall i :: 0 <= i < |leaves| - 1 ==>
        mem[leaves[i]].next == leaves[i + 1] && info[leaves[i]].hi == info[leaves[i + 1]].lo)
    && mem[leaves[|leaves| - 1]].next == NULL && info[leaves[|leaves| - 1]].hi == TOP
  }

  /** The list from a leaf on runs through all leaves with larger keys, in order. */
  lemma {:induction false} LeavesFrom(mem: Memory, info: Info, root: Ptr, abs: map<int, int>, p: Ptr)
      returns (leaves: seq<Ptr>)
    requires AllOk(mem) && W.Shape(V(mem), info, map[], root) && W.Agree(V(mem), info, abs) && Chained(mem, info)
    requires p in mem && p in info && info[p].level == 0 && info.Keys == mem.Keys && Apart(info)
    ensures IsList(mem, info, leaves) && leaves[0] == p
    ensures forall q :: q in mem && info[q].level == 0 && info[q].lo >= info[p].lo ==> q in leaves
    decreases if p in info && info[p].lo <= TOP then TOP - info[p].lo else 0
  {
    hide *;
    TopPositive();
    LeafFacts(mem, info, root, abs, p);
    forall q | q in mem && info[q].level == 0 && info[q].lo >= info[p].lo && q != p
      ensures info[p].hi <= info[q].lo < TOP
    {
      LeafFacts(mem, info, root, abs, q);
      ApartAt(info, p, q);
    }
    if info[p].hi == TOP {
      leaves := [p];
      OneLeaf(mem, info, p);
    } else {
      var rest := LeavesFrom(mem, info, root, abs, mem[p].next);
      leaves := [p] + rest;
      ListMore(mem, info, p, rest);
      assert forall q :: q in rest ==> q in leaves;
    }
  }

  lemma TopPositive()
    ensures NULL == 0 < TOP
  {
  }

  lemma OneLeaf(mem: Memory, info: Info, p: Ptr)
    requires p in mem && p in info && mem[p].LeafNode? && info[p].level == 0 && mem[p].next == NULL && info[p].hi == TOP
    ensures IsList(mem, info, [p])
  {
  }

  lemma ListMore(mem: Memory, info: Info, p: Ptr, rest: seq<Ptr>)
    requires IsList(mem, info, rest) && p in mem && p in info && mem[p].LeafNode? && info[p].level == 0
    requires rest[0] in info && mem[p].next == rest[0] && info[p].hi == info[rest[0]].lo
    ensures IsList(mem, info, [p] + rest)
  {
    var leaves := [p] + rest;
    assert forall i :: 1 <= i < |leaves| ==> leaves[i] == rest[i - 1];
  }

  /** In every reachable state the list from the leaf of the smallest keys is the sequence of all leaves. */
  method LeafList(t: Tree) returns (first: Ptr, ghost leaves: seq<Ptr>)
    requires t.Valid()
    ensures IsList(t.mem, t.info, leaves) && leaves[0] == first && first in t.info && t.info[first].lo == 0
    ensures forall q :: q in t.mem && q in t.info && t.info[q].level == 0 ==> q in leaves
  {
    assert 0 < TOP;
    hide *;
    t.ValidFacts();
    first := t.FindLeaf(0);
    W.InsideTop(V(t.mem), t.info, t.root, first);
    leaves := LeavesFrom(t.mem, t.info, t.root, t.abs, first);
    forall q | q in t.mem && q in t.info && t.info[q].level == 0 ensures q in leaves {
      W.InsideTop(V(t.mem), t.info, t.root, q);
    }
  }
}
