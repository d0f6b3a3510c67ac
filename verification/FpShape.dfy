/** FPTree memory as a web of nodes, the list of its leaves, and what the steps of an insertion do to both. */
module FpShape {
  import opened SortedPairs
  import opened KeyRanges
  import opened FpBits
  import opened FpNode
  import opened LeafStarts
  import W = NodeWeb

  const NULL: Ptr := 0

  type Memory = map<Ptr, Node>

  // ---------------------------------------------------------------- memory as a web of nodes

  ghost function ViewOf(n: Node): W.View {
    W.View(Live(n), if n.InnerNode? then n.leftmost else NULL, n.parent, n.LeafNode?)
  }

  ghost function V(mem: Memory): W.Views {
    map p | p in mem :: ViewOf(mem[p])
  }

  ghost predicate NodeOk(n: Node) {
    if n.LeafNode? then LeafOk(n) else InnerOk(n)
  }

  ghost predicate AllOk(mem: Memory) {
    forall p :: p in mem ==> NodeOk(mem[p])
  }

  lemma AllOkIs(mem: Memory)
    requires forall p :: p in mem ==> NodeOk(mem[p])
    ensures AllOk(mem)
  {
  }

  lemma OkAt(mem: Memory, p: Ptr)
    requires AllOk(mem) && p in mem
    ensures NodeOk(mem[p]) && (if mem[p].LeafNode? then LeafOk(mem[p]) else InnerOk(mem[p]))
  {
    hide LeafOk, InnerOk;
  }

  lemma Seen(mem: Memory)
    ensures V(mem).Keys == mem.Keys
    ensures forall p :: p in mem ==> V(mem)[p] == ViewOf(mem[p])
    ensures forall p :: W.LiveOf(V(mem), p) == if p in mem then Live(mem[p]) else []
  {
    hide Live;
  }

  lemma SeenAt(mem: Memory, p: Ptr)
    requires p in mem
    ensures p in V(mem) && V(mem)[p] == ViewOf(mem[p]) && V(mem)[p].live == Live(mem[p]) == W.LiveOf(V(mem), p)
    ensures var v := V(mem)[p];
      v.parent == mem[p].parent && v.isLeaf == mem[p].LeafNode? && (mem[p].InnerNode? ==> v.leftmost == mem[p].leftmost)
  {
    hide Live;
  }

  lemma ViewIs(n: Node)
    ensures var v := ViewOf(n); v.live == Live(n) && v.parent == n.parent && v.isLeaf == n.LeafNode?
    ensures ViewOf(n).leftmost == if n.InnerNode? then n.leftmost else NULL
  {
    hide Live;
  }

  lemma Reparented(n: Node, p: Ptr)
    ensures Live(n.(parent := p)) == Live(n) && ViewOf(n.(parent := p)) == ViewOf(n).(parent := p)
    ensures NodeOk(n) ==> NodeOk(n.(parent := p))
  {
    var n' := n.(parent := p);
    if n.InnerNode? && InnerOk(n) {
      InnerLive(n);
      InnerLive(n');
    }
    assert Live(n') == Live(n);
  }

  // ---------------------------------------------------------------- the leaf list

  /** The list leads from a leaf to the one that covers the keys right above. */
  ghost predicate NextFits(mem: Memory, info: Info, p: Ptr) {
    p in mem && p in info && mem[p].LeafNode? &&
    if info[p].hi == TOP then mem[p].next == NULL
    else mem[p].next in info && info[mem[p].next].level == 0 && info[mem[p].next].lo == info[p].hi
  }

  ghost predicate Chained(mem: Memory, info: Info) {
    forall p :: p in mem && p in info && info[p].level == 0 ==> NextFits(mem, info, p)
  }

  /** Leaves keep their ranges and everything but their parent; there are no new ones. */
  ghost predicate LeavesKept(mem: Memory, info: Info, mem': Memory, info': Info) {
    && (forall p :: p in mem && p in info && info[p].level == 0 ==>
        p in mem' && p in info' && info'[p] == info[p] && mem'[p] == mem[p].(parent := mem'[p].parent))
    && (forall p :: p in mem' && p in info' && info'[p].level == 0 ==> p in mem && p in info && info[p].level == 0)
  }

  lemma LeavesKeptTwice(mem0: Memory, info0: Info, mem1: Memory, info1: Info, mem2: Memory, info2: Info)
    requires LeavesKept(mem0, info0, mem1, info1) && LeavesKept(mem1, info1, mem2, info2)
    ensures LeavesKept(mem0, info0, mem2, info2)
  {
  }

  /** Agreement with the map is a matter of leaves. */
  lemma AgreeKept(mem: Memory, info: Info, mem': Memory, info': Info, abs: map<int, int>)
    requires LeavesKept(mem, info, mem', info') && W.Agree(V(mem), info, abs)
    ensures W.Agree(V(mem'), info', abs)
  {
    Seen(mem);
    Seen(mem');
    forall p | p in mem' && p in info' && info'[p].level == 0
      ensures p in mem && p in info && info'[p] == info[p] && Live(mem'[p]) == Live(mem[p])
    {
      Reparented(mem[p], mem'[p].parent);
    }
    hide V, Live, LeavesKept, W.Agree;
    W.AgreeFrame(V(mem), V(mem'), info, info', abs);
  }

  // ---------------------------------------------------------------- one leaf changes

  lemma BoundHere(live: seq<Pair>, lo: int, hi: int, abs: map<int, int>, e: Pair)
    requires LeafAgrees(live, lo, hi, abs) && e in live
    ensures e.key in abs && abs[e.key] == e.tid
  {
  }

  lemma FirstTree(n: Node)
    requires n.LeafNode? && |n.fingerprints| == 63 == |n.entries| && n.next == NULL
      && (forall i :: 0 <= i < 64 ==> !n.bitmap[i])
    ensures AllOk(map[1 := n]) && W.Shape(V(map[1 := n]), map[1 := Range(0, TOP, 0)], map[], 1)
    ensures W.Agree(V(map[1 := n]), map[1 := Range(0, TOP, 0)], map[])
      && Chained(map[1 := n], map[1 := Range(0, TOP, 0)])
  {
    EmptyLive(n);
    var mem: Memory := map[1 := n];
    Seen(mem);
    hide Live;
    assert V(mem)[1].live == [];
  }

  /** One leaf has changed: what the web sees. */
  lemma LeafChangedTo(mem: Memory, mem': Memory, p: Ptr)
    requires AllOk(mem) && p in mem && p in mem' && mem' == mem[p := mem'[p]] && mem[p].LeafNode? && LeafOk(mem'[p])
      && mem'[p].parent == mem[p].parent
    ensures AllOk(mem') && V(mem').Keys == V(mem).Keys == mem.Keys && V(mem') == V(mem)[p := V(mem')[p]]
    ensures p in V(mem) && V(mem')[p] == V(mem)[p].(live := Live(mem'[p])) && Strict(Live(mem'[p]))
      && W.LiveOf(V(mem'), p) == Live(mem'[p])
    ensures forall c :: c in mem && c != p ==> W.LiveOf(V(mem'), c) == W.LiveOf(V(mem), c)
  {
    hide *;
    Seen(mem);
    Seen(mem');
    LeafIsOk(mem'[p]);
    forall c | c in mem' ensures NodeOk(mem'[c]) && V(mem')[c] == (V(mem)[p := V(mem')[p]])[c]
        && (c != p ==> W.LiveOf(V(mem'), c) == W.LiveOf(V(mem), c)) {
      SeenAt(mem', c);
      if c != p {
        OkAt(mem, c);
        SeenAt(mem, c);
      }
    }
    AllOkIs(mem');
    SeenAt(mem, p);
    SeenAt(mem', p);
    ViewIs(mem[p]);
    ViewIs(mem'[p]);
    LeafParts(mem'[p]);
    SameViews(V(mem'), V(mem)[p := V(mem')[p]]);
  }

  lemma SameViews(a: W.Views, b: W.Views)
    requires a.Keys == b.Keys && forall c :: c in a ==> a[c] == b[c]
    ensures a == b
  {
    forall c | c in a.Keys ensures c in b.Keys && a[c] == b[c] {}
    assert a == b;
  }

  lemma LeafIsOk(n: Node)
    requires LeafOk(n)
    ensures NodeOk(n) && n.LeafNode?
  {
    hide Live;
  }

  /** One leaf gets other entries, and the map follows. */
  lemma LeafUpdated(mem: Memory, mem': Memory, info: Info, root: Ptr, p: Ptr, abs: map<int, int>, abs': map<int, int>)
    requires AllOk(mem) && W.Shape(V(mem), info, map[], root) && W.Agree(V(mem), info, abs) && Chained(mem, info)
    requires p in mem && p in info && info[p].level == 0
    requires p in mem' && mem' == mem[p := mem'[p]] && mem[p].LeafNode? && LeafOk(mem'[p])
      && mem'[p].parent == mem[p].parent && mem'[p].next == mem[p].next
    requires KeysBetween(Live(mem'[p]), info[p].lo, info[p].hi - 1)
      && LeafAgrees(Live(mem'[p]), info[p].lo, info[p].hi, abs')
    requires forall k :: !(info[p].lo <= k < info[p].hi) ==>
      (k in abs' <==> k in abs) && (k in abs ==> abs'[k] == abs[k])
    ensures AllOk(mem') && W.Shape(V(mem'), info, map[], root) && W.Agree(V(mem'), info, abs') && Chained(mem', info)
  {
    hide *;
    LeafChangedTo(mem, mem', p);
    LeafIsOk(mem'[p]);
    W.LeafUpdated(V(mem), V(mem'), info, root, p, abs, abs');
    NextKept(mem, mem', info, p);
  }

  lemma NextKept(mem: Memory, mem': Memory, info: Info, p: Ptr)
    requires Chained(mem, info) && p in mem && p in mem' && mem' == mem[p := mem'[p]] && mem[p].LeafNode?
      && mem'[p].LeafNode? && mem'[p].next == mem[p].next
    ensures Chained(mem', info)
  {
    forall c | c in mem' && c in info && info[c].level == 0 ensures NextFits(mem', info, c) {
      assert NextFits(mem, info, c);
    }
  }

  // ---------------------------------------------------------------- the parent learns of a split

  /** The new node b that split off a is entered into the parent of a. */
  lemma ChildPut(mem: Memory, mem': Memory, info: Info, pends: Pends, root: Ptr, a: Ptr, n': Node)
    requires AllOk(mem) && W.Shape(V(mem), info, pends, root) && a in pends && a in mem && a != root
    requires pends[a] in mem && pends[a] in info && mem[a].parent in mem && mem[a].parent != pends[a]
    requires var b, p := pends[a], mem[a].parent;
      && mem[p].InnerNode? && InnerOk(n') && n' == mem[p].(nKeys := n'.nKeys, keys := n'.keys, ptrs := n'.ptrs)
      && Live(n') == PutPair(Live(mem[p]), Pair(info[b].lo, b)) && Strict(Live(n'))
      && mem' == mem[p := n'][b := mem[b].(parent := p)]
    ensures AllOk(mem') && W.Shape(V(mem'), info, pends - {a}, root)
    ensures LeavesKept(mem, info, mem', info)
  {
    hide *;
    var b, p := pends[a], mem[a].parent;
    Seen(mem);
    Seen(mem');
    SeenAt(mem, a);
    SeenAt(mem, p);
    ViewIs(mem[p]);
    ViewIs(n');
    Reparented(mem[b], p);
    InnerIsOk(n');
    var views := V(mem)[p := ViewOf(n')][b := V(mem)[b].(parent := p)];
    forall c | c in mem' ensures NodeOk(mem'[c]) && V(mem')[c] == views[c] {
      SeenAt(mem', c);
      OkAt(mem, b);
      if c in mem {
        OkAt(mem, c);
        SeenAt(mem, c);
      }
    }
    SameViews(V(mem'), views);
    AllOkIs(mem');
    W.Resolve(V(mem), V(mem'), info, pends, root, a, ViewOf(n'));
    W.ShapeParts(V(mem), info, pends, root);
    InnerLevel(mem, info, pends, root, p);
    LeavesKeptHere(mem, mem', info, info);
  }

  lemma InnerIsOk(n: Node)
    requires InnerOk(n)
    ensures NodeOk(n) && n.InnerNode?
  {
  }

  lemma InnerLevel(mem: Memory, info: Info, pends: Pends, root: Ptr, p: Ptr)
    requires W.Shape(V(mem), info, pends, root) && p in mem
    ensures p in info && (info[p].level == 0 <==> mem[p].LeafNode?)
  {
    hide *;
    Seen(mem);
    SeenAt(mem, p);
    W.ShapeAt(V(mem), info, pends, root, p);
    W.NodeFitsParts(V(mem), info, p);
  }

  lemma LeavesKeptHere(mem: Memory, mem': Memory, info: Info, info': Info)
    requires forall p :: p in mem && p in info && info[p].level == 0 ==>
      p in mem' && p in info' && info'[p] == info[p] && mem'[p] == mem[p].(parent := mem'[p].parent)
    requires forall p :: p in mem' && p in info' && info'[p].level == 0 ==> p in mem && p in info && info[p].level == 0
    ensures LeavesKept(mem, info, mem', info')
  {
  }

  /** The root has been split into a and b: a new node r takes both. */
  lemma RootGrown(mem: Memory, mem': Memory, info: Info, a: Ptr, b: Ptr, r: Ptr, R: Node)
    requires AllOk(mem) && W.Shape(V(mem), info, map[a := b], a) && r !in mem
    requires a in mem && b in mem && a in info && b in info
    requires InnerOk(R) && Live(R) == [Pair(info[b].lo, b)] && R.leftmost == a
    requires a != b && mem' == mem[r := R][b := mem[b].(parent := r)][a := mem[a].(parent := r)]
    ensures AllOk(mem') && W.Shape(V(mem'), info[r := Range(0, TOP, info[a].level + 1)], map[], r)
    ensures LeavesKept(mem, info, mem', info[r := Range(0, TOP, info[a].level + 1)])
  {
    hide *;
    Seen(mem);
    Seen(mem');
    ViewIs(R);
    InnerIsOk(R);
    Reparented(mem[a], r);
    Reparented(mem[b], r);
    OneStrict(info[b].lo, b);
    var views := V(mem)[r := ViewOf(R)][a := V(mem)[a].(parent := r)][b := V(mem)[b].(parent := r)];
    forall c | c in mem' ensures NodeOk(mem'[c]) && V(mem')[c] == views[c] {
      SeenAt(mem', c);
      OkAt(mem, a);
      OkAt(mem, b);
      if c in mem {
        OkAt(mem, c);
        SeenAt(mem, c);
      }
    }
    SameViews(V(mem'), views);
    AllOkIs(mem');
    W.NewRoot(V(mem), V(mem'), info, a, b, r, ViewOf(R));
    W.ShapeParts(V(mem), info, map[a := b], a);
    LeavesKeptHere(mem, mem', info, info[r := Range(0, TOP, info[a].level + 1)]);
  }

  lemma OneStrict(key: int, b: Ptr)
    ensures Strict([Pair(key, b)])
  {
  }

  // ---------------------------------------------------------------- the upper half of a full inner node moves

  /** Child c stands right of one of the i keys from the middle on. */
  ghost predicate KidBeyond(ptrs: seq<Ptr>, i: nat, c: Ptr) {
    exists k :: 127 <= k < 127 + i && k < |ptrs| && ptrs[k] == c
  }

  /** i keys of the upper half of n, and the children right of them, have moved to m. */
  ghost predicate KidsMoved(mem: Memory, mem': Memory, n: Ptr, m: Ptr, i: nat) {
    && i <= 127 && n in mem && m in mem && n != m && mem'.Keys == mem.Keys
    && InnerOk(mem[n]) && mem[n].nKeys == 254 && InnerOk(mem'[m]) && mem'[m].nKeys == i
    && mem'[n] == mem[n].(nKeys := 254 - i)
    && (forall k :: 0 <= k < i ==> mem'[m].keys[k] == mem[n].keys[127 + k] && mem'[m].ptrs[k] == mem[n].ptrs[127 + k])
    && forall c :: c in mem && c != n && c != m ==>
      mem'[c] == mem[c].(parent := if KidBeyond(mem[n].ptrs, i, c) then m else mem[c].parent)
  }

  lemma StoredTwice(mem: Memory, p: Ptr, x: Node, y: Node)
    ensures mem[p := x][p := y] == mem[p := y]
  {
  }

  lemma StoredAround(mem: Memory, p: Ptr, x: Node, q: Ptr, y: Node, z: Node)
    requires p != q
    ensures mem[p := x][q := y][p := z] == mem[p := z][q := y]
  {
  }

  lemma NoKidsMoved(mem: Memory, n: Ptr, m: Ptr)
    requires n in mem && m in mem && n != m && InnerOk(mem[n]) && mem[n].nKeys == 254 && InnerOk(mem[m])
      && mem[m].nKeys == 0
    ensures KidsMoved(mem, mem, n, m, 0)
  {
  }

  lemma KidsMovedMore(mem: Memory, mem1: Memory, mem2: Memory, n: Ptr, m: Ptr, i: nat)
    requires KidsMoved(mem, mem1, n, m, i) && i < 127
    requires n in mem1 && m in mem1 && InnerOk(mem1[n]) && InnerOk(mem1[m])
    requires var child := mem1[n].ptrs[127 + i];
      && child in mem1 && child != n && child != m
      && mem2 == mem1[m := mem1[m].(keys := mem1[m].keys[i := mem1[n].keys[127 + i]],
                                    ptrs := mem1[m].ptrs[i := child], nKeys := i + 1)]
                     [child := mem1[child].(parent := m)]
                     [n := mem1[n].(nKeys := mem1[n].nKeys - 1)]
    ensures KidsMoved(mem, mem2, n, m, i + 1)
  {
    var child := mem1[n].ptrs[127 + i];
    assert mem[n].ptrs[127 + i] == child;
    forall c ensures KidBeyond(mem[n].ptrs, i + 1, c) <==> KidBeyond(mem[n].ptrs, i, c) || c == child {
      KidBeyondMore(mem[n].ptrs, i, c);
    }
    hide KidBeyond;
  }

  lemma KidBeyondMore(ptrs: seq<Ptr>, i: nat, c: Ptr)
    requires 127 + i < |ptrs|
    ensures KidBeyond(ptrs, i + 1, c) <==> KidBeyond(ptrs, i, c) || c == ptrs[127 + i]
  {
  }

  lemma KidsMovedParts(mem: Memory, mem': Memory, n: Ptr, m: Ptr, i: nat)
    requires KidsMoved(mem, mem', n, m, i)
    ensures i <= 127 && n in mem && m in mem && n != m && mem'.Keys == mem.Keys
    ensures InnerOk(mem[n]) && mem[n].nKeys == 254 && InnerOk(mem'[m]) && mem'[m].nKeys == i
    ensures mem'[n] == mem[n].(nKeys := 254 - i) && InnerOk(mem'[n]) && mem'[n].InnerNode? && mem'[m].InnerNode?
    ensures |mem[n].keys| == 254 == |mem[n].ptrs| && |mem'[m].keys| == 254 == |mem'[m].ptrs|
    ensures forall k :: 0 <= k < i ==>
      mem'[m].keys[k] == mem[n].keys[127 + k] && mem'[m].ptrs[k] == mem[n].ptrs[127 + k]
    ensures forall c :: c in mem && c != n && c != m ==>
      mem'[c] == mem[c].(parent := if KidBeyond(mem[n].ptrs, i, c) then m else mem[c].parent)
  {
    hide KidBeyond;
  }

  lemma CutIsSplitting(mem0: Memory, mem1: Memory, mem2: Memory, info: Info, pends: Pends, root: Ptr, n: Ptr, m: Ptr)
    requires AllOk(mem0) && W.Shape(V(mem0), info, pends, root)
    requires n in mem0 && n in info && info[n].level > 0 && n !in pends && !Hanging(pends, n) && m !in mem0
    requires forall a :: a in pends ==> a in mem0 && pends[a] in mem0
    requires InnerOk(mem0[n]) && mem0[n].nKeys == 254
    requires m in mem1 && mem1 == mem0[m := mem1[m]] && KidsMoved(mem1, mem2, n, m, 127)
    ensures AllOk(mem2) && W.Splitting(V(mem0), V(mem2), info, pends, root, n, m, 127)
    ensures |Live(mem0[n])| == 254 && Live(mem2[n]) == Live(mem0[n])[..127] && Live(mem2[m]) == Live(mem0[n])[127..]
  {
    hide *;
    KidsMovedParts(mem1, mem2, n, m, 127);
    Seen(mem0);
    Seen(mem2);
    SeenAt(mem0, n);
    SeenAt(mem2, n);
    SeenAt(mem2, m);
    W.ShapeParts(V(mem0), info, pends, root);
    W.ShapeAt(V(mem0), info, pends, root, n);
    W.NodeFitsParts(V(mem0), info, n);
    HalvesLive(mem0[n], mem2[n], mem2[m]);
    HalvesStrict(Live(mem0[n]));
    forall c | c in mem2
      ensures NodeOk(mem2[c])
      ensures c in mem0 && c != n ==> V(mem2)[c] == V(mem0)[c].(parent := W.ParentAfter(V(mem0), info, n, m, 127, c))
    {
      if c in mem0 && c != n {
        OkAt(mem0, c);
        SeenAt(mem0, c);
        SeenAt(mem2, c);
        MovedIsBeyond(mem0, info, n, c);
        W.ParentAfterIs(V(mem0), info, n, m, 127, c);
        Reparented(mem0[c], mem2[c].parent);
      } else {
        InnerIsOk(mem2[c]);
      }
    }
    AllOkIs(mem2);
    NewIsNotHanging(pends, mem0, m);
    W.SplittingIs(V(mem0), V(mem2), info, pends, root, n, m, 127);
  }

  lemma NewIsNotHanging(pends: Pends, mem: Memory, m: Ptr)
    requires m !in mem && forall a :: a in pends ==> a in mem && pends[a] in mem
    ensures m !in pends && !Hanging(pends, m)
  {
  }

  lemma HalvesLive(n: Node, x: Node, y: Node)
    requires InnerOk(n) && n.nKeys == 254 && x == n.(nKeys := 127) && InnerOk(y) && y.nKeys == 127
    requires forall k :: 0 <= k < 127 ==> y.keys[k] == n.keys[127 + k] && y.ptrs[k] == n.ptrs[127 + k]
    ensures |Live(n)| == 254 && Live(x) == Live(n)[..127] && Live(y) == Live(n)[127..]
  {
    InnerLive(n);
    InnerLive(x);
    InnerLive(y);
    hide Live;
  }

  lemma HalvesStrict(live: seq<Pair>)
    requires |live| == 254 && Strict(live)
    ensures Strict(live[..127]) && Strict(live[127..])
  {
  }

  lemma MovedIsBeyond(mem: Memory, info: Info, n: Ptr, c: Ptr)
    requires n in mem && n in info && info[n].level > 0 && InnerOk(mem[n]) && mem[n].nKeys == 254
    ensures W.Moved(V(mem), info, n, 127, c) <==> KidBeyond(mem[n].ptrs, 127, c)
  {
    Seen(mem);
    InnerLive(mem[n]);
    hide V, Live, W.LiveOf;
    var live := W.LiveOf(V(mem), n);
    assert live == Live(mem[n]);
    if KidBeyond(mem[n].ptrs, 127, c) {
      var k :| 127 <= k < 127 + 127 && k < |mem[n].ptrs| && mem[n].ptrs[k] == c;
      assert live[k].tid == c;
    }
  }

  /** The web after a full inner node has been cut, seen from the split node a below it. */
  lemma CutFacts(mem0: Memory, mem1: Memory, mem2: Memory, info: Info, pends: Pends, root: Ptr, n: Ptr, m: Ptr, a: Ptr)
    requires AllOk(mem0) && W.Shape(V(mem0), info, pends, root)
    requires n in mem0 && n in info && info[n].level > 0 && n !in pends && !Hanging(pends, n) && m !in mem0
    requires forall a :: a in pends ==> a in mem0 && pends[a] in mem0
    requires InnerOk(mem0[n]) && mem0[n].nKeys == 254
    requires m in mem1 && mem1 == mem0[m := mem1[m]] && KidsMoved(mem1, mem2, n, m, 127)
    requires a in mem0 && a != n && mem0[a].parent == n
    ensures |W.LiveOf(V(mem0), n)| == 254 && AllOk(mem2) && mem2.Keys == mem0.Keys + {m}
    ensures W.Shape(V(mem2), W.InfoAfter(V(mem0), info, n, m, 127), pends[n := m], root)
    ensures mem2[a].parent == n || mem2[a].parent == m
    ensures var info' := W.InfoAfter(V(mem0), info, n, m, 127);
      && n in info' && m in info' && info'[n].hi == info'[m].lo && info'[n].level == info[n].level == info'[m].level
      && (forall c :: c in info && c != n ==> c in info' && info'[c] == info[c])
      && LeavesKept(mem0, info, mem2, info')
      && InnerOk(mem2[m]) && mem2[m].nKeys == 127 && mem2[m].keys[0] == info'[m].lo
      && InnerOk(mem2[n]) && mem2[n].nKeys == 127
  {
    hide *;
    CutIsSplitting(mem0, mem1, mem2, info, pends, root, n, m);
    Seen(mem0);
    Seen(mem2);
    W.ShapeAt(V(mem0), info, pends, root, n);
    W.SplittingParts(V(mem0), V(mem2), info, pends, root, n, m, 127);
    W.SplitNode(V(mem0), V(mem2), info, pends, root, n, m, 127);
    W.ShapeParts(V(mem0), info, pends, root);
    KidsMovedParts(mem1, mem2, n, m, 127);
    InnerLive(mem0[n]);
    InnerLive(mem2[m]);
    assert Live(mem2[m])[0] == Live(mem0[n])[127];
    LeavesKeptHere(mem0, mem2, info, W.InfoAfter(V(mem0), info, n, m, 127));
  }

  // ---------------------------------------------------------------- facts for the climb

  lemma AllOkMore(mem: Memory, p: Ptr, n: Node)
    requires AllOk(mem) && NodeOk(n)
    ensures AllOk(mem[p := n])
  {
  }

  lemma OneKey(n: Node, key: int, child: Ptr)
    requires n.InnerNode? && |n.keys| == 254 == |n.ptrs| && n.nKeys == 1 && n.keys[0] == key && n.ptrs[0] == child
    ensures InnerOk(n) && Live(n) == [Pair(key, child)]
  {
    InnerLive(n);
  }

  /** The parent of a split node, which is not the root. */
  lemma ParentFacts(mem: Memory, info: Info, curr: Ptr, split: Ptr, root: Ptr)
    requires AllOk(mem) && W.Shape(V(mem), info, map[curr := split], root) && curr in mem && curr != root
    ensures split in mem && split in info && info.Keys == mem.Keys && RootFits(info, map[curr := split], root)
    ensures var p := mem[curr].parent;
      && p in mem && p in info && info[p].level == info[curr].level + 1 && p != curr && p != split
      && mem[p].InnerNode? && InnerOk(mem[p]) && Strict(Live(mem[p])) && !HasKey(Live(mem[p]), info[split].lo)
      && !Hanging(map[curr := split], p)
  {
    hide *;
    var pends: Pends := map[curr := split];
    OnePend(curr, split);
    Seen(mem);
    SeenAt(mem, curr);
    W.ShapeParts(V(mem), info, pends, root);
    PendsParts(info, pends, curr);
    var l := W.NewKidPosition(V(mem), info, pends, root, curr);
    var p := mem[curr].parent;
    SeenAt(mem, p);
    InnerLevel(mem, info, pends, root, p);
    OkAt(mem, p);
    NotHanging(curr, split, p);
  }

  /** A full parent: its children are other nodes. */
  lemma FullParent(mem: Memory, info: Info, pends: Pends, root: Ptr, p: Ptr)
    requires W.Shape(V(mem), info, pends, root) && p in mem && p in info && info[p].level > 0
    requires InnerOk(mem[p]) && mem[p].InnerNode? && mem[p].nKeys == 254
    ensures |mem[p].ptrs| == 254 && forall k :: 127 <= k < 254 ==> mem[p].ptrs[k] in mem && mem[p].ptrs[k] != p
  {
    hide *;
    Seen(mem);
    SeenAt(mem, p);
    InnerLive(mem[p]);
    W.ShapeAt(V(mem), info, pends, root, p);
    W.KidsInNodes(V(mem), info, pends, p);
    forall k | 127 <= k < 254 ensures mem[p].ptrs[k] in mem && mem[p].ptrs[k] != p {
      assert Live(mem[p])[k].tid == mem[p].ptrs[k];
    }
  }

  /** The key of the new child lies in the range of the half that has become its sibling's parent. */
  lemma HalfForKey(mem: Memory, info: Info, pends: Pends, root: Ptr, a: Ptr, q: Ptr)
    requires AllOk(mem) && W.Shape(V(mem), info, pends, root) && a in pends && a in mem && a != root
      && q == mem[a].parent
    ensures pends[a] in mem && pends[a] in info && q in mem && q in info && info[q].lo < info[pends[a]].lo < info[q].hi
    ensures Strict(Live(mem[q])) && !HasKey(Live(mem[q]), info[pends[a]].lo) && Live(mem[q]) != []
    ensures KeysBetween(Live(mem[q]), info[q].lo, info[q].hi - 1)
  {
    hide *;
    Seen(mem);
    SeenAt(mem, a);
    var l := W.NewKidPosition(V(mem), info, pends, root, a);
    SeenAt(mem, q);
    W.ShapeAt(V(mem), info, pends, root, q);
    W.NodeFitsParts(V(mem), info, q);
  }

  // ---------------------------------------------------------------- a full leaf is split

  /** Keys are unsigned 64-bit numbers. */
  ghost predicate InRange(abs: map<int, int>) {
    forall k :: k in abs ==> 0 <= k < TOP
  }

  lemma InRangeMore(abs: map<int, int>, key: int, value: int)
    requires InRange(abs) && 0 <= key < TOP
    ensures InRange(abs[key := value])
  {
  }

  /** The web after a full leaf has been cut. */
  lemma LeafCutFacts(mem0: Memory, mem1: Memory, info: Info, root: Ptr, leaf: Ptr, split: Ptr, abs: map<int, int>)
    requires AllOk(mem0) && W.Shape(V(mem0), info, map[], root) && W.Agree(V(mem0), info, abs)
    requires leaf in mem0 && leaf in info && info[leaf].level == 0 && split !in mem0
    requires leaf in mem1 && split in mem1 && mem1 == mem0[leaf := mem1[leaf]][split := mem1[split]]
    requires LeafOk(mem1[leaf]) && LeafOk(mem1[split]) && mem0[leaf].LeafNode?
    requires |Live(mem0[leaf])| == 63 && mem1[leaf].parent == mem0[leaf].parent
    requires Live(mem1[leaf]) == Live(mem0[leaf])[..31] && Live(mem1[split]) == Live(mem0[leaf])[31..]
    ensures |W.LiveOf(V(mem0), leaf)| == 63 && AllOk(mem1)
    ensures var info' := W.InfoAfter(V(mem0), info, leaf, split, 31);
      && W.Shape(V(mem1), info', map[leaf := split], root) && W.Agree(V(mem1), info', abs)
      && info' == info[leaf := Range(info[leaf].lo, Live(mem1[split])[0].key, 0)]
                      [split := Range(Live(mem1[split])[0].key, info[leaf].hi, 0)]
    ensures InRange(abs) ==> Live(mem1[split])[0].key < TOP
  {
    hide *;
    Seen(mem0);
    Seen(mem1);
    SeenAt(mem0, leaf);
    SeenAt(mem1, leaf);
    SeenAt(mem1, split);
    ViewIs(mem0[leaf]);
    ViewIs(mem1[leaf]);
    ViewIs(mem1[split]);
    LeafParts(mem1[leaf]);
    LeafParts(mem1[split]);
    LeafIsOk(mem1[leaf]);
    LeafIsOk(mem1[split]);
    W.ShapeParts(V(mem0), info, map[], root);
    W.ShapeAt(V(mem0), info, map[], root, leaf);
    W.NodeFitsParts(V(mem0), info, leaf);
    forall c | c in mem1
      ensures NodeOk(mem1[c])
      ensures c in mem0 && c != leaf ==>
        V(mem1)[c] == V(mem0)[c].(parent := W.ParentAfter(V(mem0), info, leaf, split, 31, c))
    {
      if c in mem0 && c != leaf {
        OkAt(mem0, c);
        SeenAt(mem0, c);
        SeenAt(mem1, c);
        NoneMoved(mem0, info, leaf, c);
        W.ParentAfterIs(V(mem0), info, leaf, split, 31, c);
      }
    }
    AllOkIs(mem1);
    NewIsNotHanging(map[], mem0, split);
    NewIsNotHanging(map[], map[], leaf);
    W.SplittingIs(V(mem0), V(mem1), info, map[], root, leaf, split, 31);
    W.SplittingParts(V(mem0), V(mem1), info, map[], root, leaf, split, 31);
    W.SplitNode(V(mem0), V(mem1), info, map[], root, leaf, split, 31);
    W.AgreeSplit(V(mem0), V(mem1), info, map[], root, leaf, split, 31, abs);
    assert Live(mem1[split])[0] == Live(mem0[leaf])[31];
    EmptyPends(leaf, split);
    W.AgreeAt(V(mem0), info, leaf, abs);
    BoundHere(Live(mem0[leaf]), info[leaf].lo, info[leaf].hi, abs, Live(mem0[leaf])[31]);
    InRangeAt(abs, Live(mem0[leaf])[31].key);
  }

  lemma InRangeAt(abs: map<int, int>, key: int)
    requires key in abs
    ensures InRange(abs) ==> 0 <= key < TOP
  {
  }

  lemma AllOkTwo(mem: Memory, mem': Memory, p: Ptr, q: Ptr)
    requires AllOk(mem) && p in mem' && q in mem' && NodeOk(mem'[p]) && NodeOk(mem'[q])
    requires mem' == mem[p := mem'[p]][q := mem'[q]]
    ensures AllOk(mem')
  {
    hide NodeOk;
  }

  lemma EmptyPends(a: Ptr, b: Ptr)
    ensures var pends: Pends := map[]; pends[a := b] == map[a := b]
  {
  }

  lemma NoneMoved(mem: Memory, info: Info, leaf: Ptr, c: Ptr)
    requires leaf in info && info[leaf].level == 0
    ensures !W.Moved(V(mem), info, leaf, 31, c)
  {
    hide V, W.LiveOf;
  }

  /** The half that covers the new key has room for it. */
  lemma HalfReady(mem: Memory, info: Info, leaf: Ptr, split: Ptr, root: Ptr, half: Ptr, abs: map<int, int>, e: Pair)
    requires AllOk(mem) && W.Shape(V(mem), info, map[leaf := split], root) && W.Agree(V(mem), info, abs)
    requires leaf in mem && split in mem && leaf in info && split in info && info[leaf].level == 0 == info[split].level
    requires info[leaf].hi == info[split].lo && info[leaf].lo <= e.key < info[split].hi && e.key !in abs
    requires half == if info[split].lo > e.key then leaf else split
    requires LeafOk(mem[leaf]) && LeafOk(mem[split]) && |Live(mem[leaf])| < 63 && |Live(mem[split])| < 63
    ensures LeafOk(mem[half]) && !HasKey(Live(mem[half]), e.key) && |Live(mem[half])| < 63
    ensures info[half].lo <= e.key < info[half].hi
    ensures KeysBetween(Live(mem[half]), info[half].lo, info[half].hi - 1)
    ensures LeafAgrees(Live(mem[half]), info[half].lo, info[half].hi, abs)
  {
    hide *;
    Seen(mem);
    SeenAt(mem, half);
    W.ShapeAt(V(mem), info, map[leaf := split], root, half);
    W.NodeFitsParts(V(mem), info, half);
    W.AgreeAt(V(mem), info, half, abs);
    NotStored(Live(mem[half]), info[half].lo, info[half].hi, abs, e.key);
  }

  lemma HalfPut(mem: Memory, mem': Memory, info: Info, leaf: Ptr, split: Ptr, root: Ptr, half: Ptr, abs: map<int, int>,
                e: Pair)
    requires AllOk(mem) && W.Shape(V(mem), info, map[leaf := split], root) && W.Agree(V(mem), info, abs)
    requires half in mem && half in mem' && half in info && info[half].level == 0
    requires mem' == mem[half := mem'[half]] && mem[half].LeafNode? && LeafOk(mem'[half])
      && mem'[half].parent == mem[half].parent
    requires Live(mem'[half]) == PutPair(Live(mem[half]), e) && !HasKey(Live(mem[half]), e.key)
    requires info[half].lo <= e.key < info[half].hi
    requires KeysBetween(Live(mem[half]), info[half].lo, info[half].hi - 1)
    requires LeafAgrees(Live(mem[half]), info[half].lo, info[half].hi, abs)
    ensures AllOk(mem') && W.Shape(V(mem'), info, map[leaf := split], root)
      && W.Agree(V(mem'), info, abs[e.key := e.tid])
  {
    hide *;
    Seen(mem);
    Seen(mem');
    SeenAt(mem, half);
    SeenAt(mem', half);
    LeafChangedTo(mem, mem', half);
    PutBetweenKeys(Live(mem[half]), info[half].lo, info[half].hi - 1, e);
    PutAgrees(Live(mem[half]), info[half].lo, info[half].hi, abs, e);
    W.ShapeParts(V(mem), info, map[leaf := split], root);
    W.LeafChanged(V(mem), V(mem'), info, map[leaf := split], root, half);
    forall c | c in mem && c in info ensures KeysBetween(W.LiveOf(V(mem), c), info[c].lo, info[c].hi - 1) {
      W.ShapeAt(V(mem), info, map[leaf := split], root, c);
      W.NodeFitsParts(V(mem), info, c);
    }
    W.AgreeChanged(V(mem), V(mem'), info, half, abs, abs[e.key := e.tid]);
  }

  lemma KeptLeaf(mem: Memory, info: Info, mem': Memory, info': Info, p: Ptr)
    requires LeavesKept(mem, info, mem', info') && AllOk(mem') && p in mem && p in info && info[p].level == 0
      && LeafOk(mem[p])
    ensures p in mem' && p in info' && info'[p] == info[p] && LeafOk(mem'[p]) && mem'[p].LeafNode?
  {
    hide Live;
    OkAt(mem', p);
  }

  lemma NextStored(mem: Memory, mem': Memory, leaf: Ptr, next: Ptr)
    requires AllOk(mem) && leaf in mem && LeafOk(mem[leaf]) && mem[leaf].LeafNode?
      && mem' == mem[leaf := mem[leaf].(next := next)]
    ensures AllOk(mem') && V(mem') == V(mem) && mem'.Keys == mem.Keys
  {
    hide *;
    NextSet(mem[leaf], next);
    LeafIsOk(mem'[leaf]);
    Seen(mem);
    Seen(mem');
    ViewIs(mem[leaf]);
    ViewIs(mem'[leaf]);
    forall c | c in mem' ensures NodeOk(mem'[c]) && V(mem')[c] == V(mem)[c] {
      SeenAt(mem', c);
      SeenAt(mem, c);
      if c != leaf { OkAt(mem, c); }
    }
    AllOkIs(mem');
    SameViews(V(mem'), V(mem));
  }

  /** Once the parents know of a split leaf, the leaves are the old ones but for that one, which is parted. */
  lemma LeafPartedIs(mem0: Memory, mem2: Memory, mem3: Memory, info0: Info, info2: Info, info3: Info, leaf: Ptr,
                     split: Ptr, mid: int)
    requires info0.Keys == mem0.Keys && leaf in mem0 && info0[leaf].level == 0 && split !in mem0
    requires info2 == info0[leaf := Range(info0[leaf].lo, mid, 0)][split := Range(mid, info0[leaf].hi, 0)]
    requires leaf in mem2 && split in mem2 && mem2 == mem0[leaf := mem2[leaf]][split := mem2[split]]
    requires LeavesKept(mem2, info2, mem3, info3) && info3.Keys == mem3.Keys
    ensures LeafParted(info0, info3, leaf, mid)
  {
    assert split in info3 && split !in info0 && info3[split] == Range(mid, info0[leaf].hi, 0);
    forall n | n in info3 && info3[n].level == 0 ensures n == split || (n in info0 && info0[n].level == 0) {
      assert n in mem3;
    }
  }

  /** The list after a split: the new leaf has been linked before the climb, the old one is linked to it after. */
  lemma ChainAfter(mem0: Memory, info0: Info, mem2: Memory, info2: Info, mem3: Memory, info3: Info, mem4: Memory,
                   leaf: Ptr, split: Ptr, mid: int)
    requires Chained(mem0, info0) && info0.Keys == mem0.Keys && leaf in mem0 && info0[leaf].level == 0 && split !in mem0
    requires mid < TOP && split > 0
    requires info2 == info0[leaf := Range(info0[leaf].lo, mid, 0)][split := Range(mid, info0[leaf].hi, 0)]
    requires leaf in mem2 && split in mem2 && mem2 == mem0[leaf := mem2[leaf]][split := mem2[split]]
    requires mem0[leaf].LeafNode? && mem2[leaf].LeafNode? && mem2[split].LeafNode?
      && mem2[split].next == mem0[leaf].next
    requires LeavesKept(mem2, info2, mem3, info3)
    requires leaf in mem3 && mem3[leaf].LeafNode? && mem4 == mem3[leaf := mem3[leaf].(next := split)]
    ensures Chained(mem4, info3)
  {
    assert NextFits(mem0, info0, leaf);
    forall p | p in mem4 && p in info3 && info3[p].level == 0 ensures NextFits(mem4, info3, p) {
      assert p in mem2 && p in info2 && info2[p].level == 0;
      if p != leaf && p != split { assert NextFits(mem0, info0, p); }
    }
  }

  /** n' is n with one entry more; the first place stays as it was if it was taken. */
  ghost predicate EntryAdded(n: Node, n': Node, e: Pair) {
    && LeafSized(n) && LeafOk(n') && n'.parent == n.parent && n'.next == n.next
    && Live(n') == PutPair(Live(n), e)
    && (n.bitmap[0] ==> n'.bitmap[0] && n'.entries[0] == n.entries[0])
  }

  lemma EntryAddedIs(n: Node, n': Node, e: Pair)
    requires n.LeafNode? && |n.fingerprints| == 63 == |n.entries| && LeafOk(n') && n'.LeafNode? && |n'.entries| == 63
    requires n'.parent == n.parent && n'.next == n.next && Live(n') == PutPair(Live(n), e)
    requires n.bitmap[0] ==> n'.bitmap[0] && n'.entries[0] == n.entries[0]
    ensures EntryAdded(n, n', e)
  {
    hide Live, PutPair;
  }

  lemma EntryAddedParts(n: Node, n': Node, e: Pair)
    requires EntryAdded(n, n', e)
    ensures n.LeafNode? && |n.fingerprints| == 63 == |n.entries| && LeafOk(n') && n'.LeafNode? && |n'.entries| == 63
    ensures n'.parent == n.parent && n'.next == n.next && Live(n') == PutPair(Live(n), e)
    ensures n.bitmap[0] ==> n'.bitmap[0] && n'.entries[0] == n.entries[0]
  {
    hide Live, PutPair;
  }

  lemma HalvesAfter(mem: Memory, mem': Memory, leaf: Ptr, split: Ptr, half: Ptr, e: Pair)
    requires leaf in mem && split in mem && leaf != split && (half == leaf || half == split) && half in mem'
    requires mem' == mem[half := mem'[half]] && EntryAdded(mem[half], mem'[half], e)
    requires LeafOk(mem[leaf]) && LeafOk(mem[split]) && mem[split].LeafNode? && |mem[split].entries| == 63
      && mem[split].bitmap[0]
    ensures leaf in mem' && split in mem' && mem' == mem[leaf := mem'[leaf]][split := mem'[split]]
    ensures LeafOk(mem'[leaf]) && LeafOk(mem'[split]) && mem[leaf].LeafNode?
    ensures mem'[leaf].LeafNode? && mem'[split].LeafNode? && |mem'[split].entries| == 63
    ensures mem'[split].next == mem[split].next && mem'[split].entries[0] == mem[split].entries[0]
  {
    EntryAddedParts(mem[half], mem'[half], e);
    hide Live, EntryAdded;
    assert mem' == mem[leaf := mem'[leaf]][split := mem'[split]];
  }

  // ---------------------------------------------------------------- range scans

  /** The bindings from lo up to hi in key order. */
  ghost predicate Scanned(abs: map<int, int>, lo: int, hi: int, es: seq<Pair>) {
    && Strict(es) && lo <= hi
    && (forall i :: 0 <= i < |es| ==> lo <= es[i].key < hi && es[i].key in abs && abs[es[i].key] == es[i].tid)
    && (forall k :: lo <= k < hi && k in abs ==> HasKey(es, k))
  }

  /** The num bindings with the smallest keys from lo on, or all of them if there are fewer. */
  ghost predicate FirstFrom(abs: map<int, int>, lo: int, num: nat, es: seq<Pair>) {
    && Strict(es) && |es| <= num
    && (forall i :: 0 <= i < |es| ==> lo <= es[i].key && es[i].key in abs && abs[es[i].key] == es[i].tid)
    && (forall k :: lo <= k && k in abs ==> HasKey(es, k) || (|es| == num && (num > 0 ==> es[num - 1].key < k)))
  }

  ghost function Tids(es: seq<Pair>): (r: seq<int>)
    ensures |r| == |es| && forall i :: 0 <= i < |r| ==> r[i] == es[i].tid
  {
    seq(|es|, i requires 0 <= i < |es| => es[i].tid)
  }

  /** The buffer holds the values of these bindings. */
  ghost predicate IsRange(abs: map<int, int>, lo: int, num: nat, buf: seq<int>) {
    exists es :: FirstFrom(abs, lo, num, es) && buf == Tids(es)
  }

  lemma NullIsZero()
    ensures NULL == 0
  {
  }

  lemma ScanStart(abs: map<int, int>, lo: int)
    ensures Scanned(abs, lo, lo, []) && Tids([]) == []
  {
  }

  lemma LeafFacts(mem: Memory, info: Info, root: Ptr, abs: map<int, int>, p: Ptr)
    requires AllOk(mem) && W.Shape(V(mem), info, map[], root) && W.Agree(V(mem), info, abs) && Chained(mem, info)
    requires p in mem && p in info && info[p].level == 0 && info.Keys == mem.Keys
    ensures LeafOk(mem[p]) && mem[p].LeafNode? && Strict(Live(mem[p])) && info[p].lo < info[p].hi <= TOP
    ensures KeysBetween(Live(mem[p]), info[p].lo, info[p].hi - 1)
    ensures LeafAgrees(Live(mem[p]), info[p].lo, info[p].hi, abs)
    ensures var next := mem[p].next;
      if info[p].hi == TOP then next == NULL
      else next in info && next in mem && info[next].level == 0 && info[next].lo == info[p].hi
  {
    hide *;
    Seen(mem);
    SeenAt(mem, p);
    OkAt(mem, p);
    InnerLevel(mem, info, map[], root, p);
    W.ShapeAt(V(mem), info, map[], root, p);
    W.NodeFitsParts(V(mem), info, p);
    W.AgreeAt(V(mem), info, p, abs);
    W.InsideTop(V(mem), info, root, p);
    ChainAt(mem, info, p);
  }

  lemma ChainAt(mem: Memory, info: Info, p: Ptr)
    requires Chained(mem, info) && p in mem && p in info && info[p].level == 0 && mem[p].LeafNode?
    ensures if info[p].hi == TOP then mem[p].next == NULL
            else mem[p].next in info && info[mem[p].next].level == 0 && info[mem[p].next].lo == info[p].hi
  {
    assert NextFits(mem, info, p);
  }

  lemma ScanPart(abs: map<int, int>, lo: int, mid: int, hi: int, before: seq<Pair>, live: seq<Pair>, i: nat)
    requires Scanned(abs, lo, mid, before) && Strict(live) && KeysBetween(live, mid, hi - 1)
      && LeafAgrees(live, mid, hi, abs)
    requires i <= |live| && mid < hi
    ensures var es := before + live[..i];
      && Strict(es)
      && (forall j :: 0 <= j < |es| ==> lo <= es[j].key < hi && es[j].key in abs && abs[es[j].key] == es[j].tid)
    ensures forall k :: lo <= k < mid && k in abs ==> HasKey(before + live[..i], k)
    ensures forall k :: mid <= k < hi && k in abs ==>
      HasKey(before + live[..i], k) || (i > 0 && live[i - 1].key < k) || i == 0
  {
    var es := before + live[..i];
    assert forall j :: 0 <= j < |es| ==> es[j] == if j < |before| then before[j] else live[j - |before|];
    forall k | lo <= k < hi && k in abs
      ensures k < mid ==> HasKey(es, k)
      ensures k >= mid ==> HasKey(es, k) || (i > 0 && live[i - 1].key < k) || i == 0
    {
      if k < mid {
        var j :| 0 <= j < |before| && before[j].key == k;
        assert es[j].key == k;
      } else {
        assert HasKey(live, k);
        var j :| 0 <= j < |live| && live[j].key == k;
        if j < i { assert es[|before| + j].key == k; }
      }
    }
  }

  lemma ScanLeaf(abs: map<int, int>, lo: int, mid: int, hi: int, before: seq<Pair>, live: seq<Pair>)
    requires Scanned(abs, lo, mid, before) && Strict(live) && KeysBetween(live, mid, hi - 1)
      && LeafAgrees(live, mid, hi, abs)
    requires mid < hi
    ensures Scanned(abs, lo, hi, before + live)
  {
    ScanPart(abs, lo, mid, hi, before, live, |live|);
    assert live[..|live|] == live;
    forall k | mid <= k < hi && k in abs ensures HasKey(before + live, k) {
      assert HasKey(live, k);
      var j :| 0 <= j < |live| && live[j].key == k;
      assert (before + live)[|before| + j].key == k;
    }
  }

  lemma ScanFull(abs: map<int, int>, lo: int, mid: int, hi: int, before: seq<Pair>, live: seq<Pair>, i: nat, num: nat,
                 es: seq<Pair>)
    requires Scanned(abs, lo, mid, before) && Strict(live) && KeysBetween(live, mid, hi - 1)
      && LeafAgrees(live, mid, hi, abs)
    requires mid < hi && 0 < i <= |live| && es == before + live[..i] && |es| == num
    ensures FirstFrom(abs, lo, num, es) && IsRange(abs, lo, num, Tids(es))
  {
    ScanPart(abs, lo, mid, hi, before, live, i);
    assert es[num - 1] == live[i - 1];
  }

  lemma ScanAll(abs: map<int, int>, lo: int, es: seq<Pair>, num: nat)
    requires InRange(abs) && Scanned(abs, lo, TOP, es) && |es| < num
    ensures FirstFrom(abs, lo, num, es) && IsRange(abs, lo, num, Tids(es))
  {
  }

  /** The scan gives what a scan from the start key itself would give if and only if no bound key of the
      leaf lies before the start key; so it does from the smallest key on. */
  lemma RangeFromStart(abs: map<int, int>, lo: int, start: int, num: nat, es: seq<Pair>)
    requires FirstFrom(abs, lo, num, es) && num >= 1 && lo <= start
    ensures FirstFrom(abs, start, num, es) <==> forall k :: lo <= k < start ==> k !in abs
  {
    if FirstFrom(abs, start, num, es) {
      assert |es| == num ==> es[num - 1].key >= start;
    }
  }
}
