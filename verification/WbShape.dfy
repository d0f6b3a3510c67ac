/** The wB+-tree's nodes as a web of nodes: what their slot arrays show is what counts. */
module WbShape {
  import opened SortedPairs
  import opened KeyRanges
  import opened WbNode
  import opened WbCrash
  import W = NodeWeb

  ghost function LiveOf(nodes: Nodes, n: Ptr): seq<Pair> {
    if n in nodes && Sized(nodes[n]) then Live(nodes[n]) else []
  }

  ghost function ViewOf(n: Node): W.View {
    W.View(if Sized(n) then Live(n) else [], n.leftmost, n.parent, n.isLeaf)
  }

  /** The nodes as the web sees them. */
  ghost function V(nodes: Nodes): W.Views {
    map n | n in nodes :: ViewOf(nodes[n])
  }

  ghost predicate AllOk(nodes: Nodes) {
    forall n :: n in nodes ==> NodeOk(nodes[n])
  }

  ghost predicate NodeFits(nodes: Nodes, info: Info, n: Ptr) {
    n in nodes && NodeOk(nodes[n]) && W.NodeFits(V(nodes), info, n)
  }

  ghost predicate Shape(nodes: Nodes, info: Info, pends: Pends, root: Ptr) {
    AllOk(nodes) && W.Shape(V(nodes), info, pends, root)
  }

  /** Every leaf holds the part of the map that it covers. */
  ghost predicate Agree(nodes: Nodes, info: Info, abs: map<int, int>) {
    W.Agree(V(nodes), info, abs)
  }

  lemma Seen(nodes: Nodes)
    ensures V(nodes).Keys == nodes.Keys
    ensures forall n :: n in nodes ==> V(nodes)[n] == ViewOf(nodes[n])
    ensures forall n :: W.LiveOf(V(nodes), n) == LiveOf(nodes, n)
  {
  }

  lemma SeenAt(nodes: Nodes, n: Ptr)
    requires n in nodes
    ensures n in V(nodes) && V(nodes)[n] == ViewOf(nodes[n])
      && V(nodes)[n].live == LiveOf(nodes, n) == W.LiveOf(V(nodes), n)
    ensures var v := V(nodes)[n];
      v.leftmost == nodes[n].leftmost && v.parent == nodes[n].parent && v.isLeaf == nodes[n].isLeaf
    ensures NodeOk(nodes[n]) ==> LiveOf(nodes, n) == Live(nodes[n]) && Strict(Live(nodes[n])) && Sized(nodes[n])
  {
  }

  lemma AllOkIs(nodes: Nodes)
    requires forall n :: n in nodes ==> NodeOk(nodes[n])
    ensures AllOk(nodes)
  {
  }

  lemma OkAt(nodes: Nodes, n: Ptr)
    requires AllOk(nodes) && n in nodes
    ensures NodeOk(nodes[n])
  {
  }

  /** The view of a node whose entries or slots are not touched. */
  lemma SameView(a: Node, b: Node)
    requires b.slot == a.slot && b.entries == a.entries
    ensures NodeOk(a) <==> NodeOk(b)
    ensures ViewOf(b) == ViewOf(a).(leftmost := b.leftmost, parent := b.parent, isLeaf := b.isLeaf)
  {
    assert Sized(a) <==> Sized(b);
    if Sized(a) {
      assert Live(a) == Live(b);
    }
  }

  lemma ViewIs(n: Node)
    ensures ViewOf(n).leftmost == n.leftmost && ViewOf(n).parent == n.parent && ViewOf(n).isLeaf == n.isLeaf
    ensures NodeOk(n) ==> Sized(n) && ViewOf(n).live == Live(n) && Strict(Live(n))
  {
  }

  lemma ShapeWeb(nodes: Nodes, info: Info, pends: Pends, root: Ptr)
    ensures Shape(nodes, info, pends, root) <==> AllOk(nodes) && W.Shape(V(nodes), info, pends, root)
  {
    hide AllOk, W.Shape, V;
  }

  lemma AgreeWeb(nodes: Nodes, info: Info, abs: map<int, int>)
    ensures Agree(nodes, info, abs) <==> W.Agree(V(nodes), info, abs)
  {
    hide W.Agree, V;
  }

  lemma FitsWeb(nodes: Nodes, info: Info, n: Ptr)
    ensures NodeFits(nodes, info, n) <==> n in nodes && NodeOk(nodes[n]) && W.NodeFits(V(nodes), info, n)
  {
    hide W.NodeFits, V, NodeOk;
  }

  lemma ShapeAt(nodes: Nodes, info: Info, pends: Pends, root: Ptr, n: Ptr)
    requires Shape(nodes, info, pends, root) && n in nodes
    ensures NodeFits(nodes, info, n) && W.ParentFits(V(nodes), info, pends, root, n)
    ensures n in info && (info[n].level > 0 ==> W.KidsFit(V(nodes), info, pends, n))
  {
    hide *;
    ShapeWeb(nodes, info, pends, root);
    FitsWeb(nodes, info, n);
    SeenAt(nodes, n);
    OkAt(nodes, n);
    W.ShapeParts(V(nodes), info, pends, root);
    W.ShapeAt(V(nodes), info, pends, root, n);
  }

  lemma ShapeParts(nodes: Nodes, info: Info, pends: Pends, root: Ptr)
    requires Shape(nodes, info, pends, root)
    ensures info.Keys == nodes.Keys && Apart(info) && PendsFit(info, pends) && RootFits(info, pends, root)
      && root in nodes
  {
    hide *;
    ShapeWeb(nodes, info, pends, root);
    Seen(nodes);
    W.ShapeParts(V(nodes), info, pends, root);
  }

  lemma NodeFitsParts(nodes: Nodes, info: Info, n: Ptr)
    requires NodeFits(nodes, info, n)
    ensures n in nodes && n in info && NodeOk(nodes[n]) && info[n].lo < info[n].hi
      && (nodes[n].isLeaf <==> info[n].level == 0)
    ensures Sized(nodes[n]) && KeysBetween(Live(nodes[n]), info[n].lo, info[n].hi - 1) && Strict(Live(nodes[n]))
    ensures LiveOf(nodes, n) == Live(nodes[n])
  {
    hide *;
    FitsWeb(nodes, info, n);
    SeenAt(nodes, n);
    W.NodeFitsParts(V(nodes), info, n);
  }

  lemma SameLive(nodes: Nodes, nodes': Nodes, n: Ptr)
    requires n in nodes && n in nodes' && nodes'[n].slot == nodes[n].slot && nodes'[n].entries == nodes[n].entries
    ensures LiveOf(nodes', n) == LiveOf(nodes, n)
    ensures NodeOk(nodes[n]) ==> NodeOk(nodes'[n])
    ensures NodeOk(nodes[n]) ==> Live(nodes'[n]) == Live(nodes[n])
  {
    if Sized(nodes[n]) {
      assert Live(nodes'[n]) == Live(nodes[n]);
    }
  }

  lemma LiveOfIs(nodes: Nodes, n: Ptr)
    requires n in nodes && NodeOk(nodes[n])
    ensures LiveOf(nodes, n) == Live(nodes[n])
  {
  }

  // ---------------------------------------------------------------- the parent learns of a split

  /** Position of the new entry: right behind the kid that was split. */
  lemma NewKidPosition(nodes: Nodes, info: Info, pends: Pends, root: Ptr, a: Ptr)
      returns (l: nat)
    requires Shape(nodes, info, pends, root) && a in pends && a in nodes && a != root
    ensures pends[a] in nodes && pends[a] in info && info.Keys == nodes.Keys
    ensures var p, key := nodes[a].parent, info[pends[a]].lo; var live := LiveOf(nodes, p);
      && p in nodes && NodeOk(nodes[p]) && live == Live(nodes[p]) && info[p].level == info[a].level + 1 && live != []
      && l == LowerBound(live, key) <= |live| && !HasKey(live, key) && info[p].lo < key < info[p].hi
      && (if l > 0 then live[l - 1] == Pair(info[a].lo, a) && info[pends[a]].hi == KidHi(live, info[p].hi, l - 1)
          else nodes[p].leftmost == a && info[a].lo == info[p].lo && info[pends[a]].hi == live[0].key)
  {
    hide *;
    Seen(nodes);
    ShapeWeb(nodes, info, pends, root);
    l := W.NewKidPosition(V(nodes), info, pends, root, a);
    SeenAt(nodes, a);
    SeenAt(nodes, nodes[a].parent);
    OkAt(nodes, nodes[a].parent);
  }

  /** The pending pair of a is entered into the parent. */
  lemma Resolve(nodes: Nodes, nodes': Nodes, info: Info, pends: Pends, root: Ptr, a: Ptr, p': Node)
    requires Shape(nodes, info, pends, root) && a in pends && a in nodes && a != root
    requires pends[a] in nodes && pends[a] in info && nodes[a].parent in nodes
    requires var b, p := pends[a], nodes[a].parent;
      && NodeOk(p') && Live(p') == PutPair(LiveOf(nodes, p), Pair(info[b].lo, b))
      && p' == nodes[p].(slot := p'.slot, entries := p'.entries)
      && nodes' == nodes[p := p'][b := nodes[b].(parent := p)]
    ensures Shape(nodes', info, pends - {a}, root)
  {
    hide *;
    var b, p := pends[a], nodes[a].parent;
    Seen(nodes);
    Seen(nodes');
    ShapeWeb(nodes, info, pends, root);
    ShapeWeb(nodes', info, pends - {a}, root);
    ShapeParts(nodes, info, pends, root);
    SeenAt(nodes, a);
    SeenAt(nodes, p);
    ViewIs(p');
    SameView(nodes[b], nodes[b].(parent := p));
    ViewIs(nodes[b]);
    forall c | c in nodes' ensures V(nodes')[c] == (V(nodes)[p := ViewOf(p')][b := V(nodes)[b].(parent := p)])[c] {
      if c in nodes { SeenAt(nodes, c); }
      SeenAt(nodes', c);
    }
    assert V(nodes') == V(nodes)[p := ViewOf(p')][b := V(nodes)[b].(parent := p)];
    forall n | n in nodes' ensures NodeOk(nodes'[n]) {
      OkAt(nodes, n);
      OkAt(nodes, b);
    }
    AllOkIs(nodes');
    W.Resolve(V(nodes), V(nodes'), info, pends, root, a, ViewOf(p'));
  }

  // ---------------------------------------------------------------- a node is split

  /** n keeps its first four entries, the new node m takes the other three, and, if these are kids,
      their parent is m. */
  ghost predicate Splitting(nodes: Nodes, nodes': Nodes, info: Info, pends: Pends, root: Ptr, n: Ptr, m: Ptr) {
    && info.Keys == nodes.Keys && n in nodes && m !in nodes && n !in pends && !Hanging(pends, n) && !Hanging(pends, m)
       && m !in pends
    && NodeOk(nodes[n]) && |LiveOf(nodes, n)| == 7
    && nodes'.Keys == nodes.Keys + {m}
    && NodeOk(nodes'[n]) && LiveOf(nodes', n) == LiveOf(nodes, n)[..4]
    && NodeOk(nodes'[m]) && LiveOf(nodes', m) == LiveOf(nodes, n)[4..]
    && nodes'[n].leftmost == nodes[n].leftmost && nodes'[n].parent == nodes[n].parent
       && nodes'[n].isLeaf == nodes[n].isLeaf == nodes'[m].isLeaf
    && (forall c :: c in nodes && c != n ==> nodes'[c] == nodes[c].(parent := ParentAfter(nodes, info, n, m, c)))
  }

  ghost predicate Moved(nodes: Nodes, info: Info, n: Ptr, c: Ptr) {
    W.Moved(V(nodes), info, n, 4, c)
  }

  ghost function ParentAfter(nodes: Nodes, info: Info, n: Ptr, m: Ptr, c: Ptr): Ptr
    requires c in nodes
  {
    if Moved(nodes, info, n, c) then m else nodes[c].parent
  }

  /** The ranges after the split. */
  ghost function InfoAfter(nodes: Nodes, info: Info, n: Ptr, m: Ptr): Info
    requires n in info && |LiveOf(nodes, n)| == 7
  {
    W.InfoAfter(V(nodes), info, n, m, 4)
  }

  lemma SplittingIn(nodes: Nodes, nodes': Nodes, info: Info, pends: Pends, root: Ptr, n: Ptr, m: Ptr)
    requires Splitting(nodes, nodes', info, pends, root, n, m)
    ensures n in nodes && info.Keys == nodes.Keys && |LiveOf(nodes, n)| == 7
  {
    hide LiveOf, NodeOk, ParentAfter;
  }

  lemma ParentAfterIs(nodes: Nodes, info: Info, n: Ptr, m: Ptr, c: Ptr)
    requires c in nodes
    ensures ParentAfter(nodes, info, n, m, c) == if Moved(nodes, info, n, c) then m else nodes[c].parent
  {
    hide Moved;
  }

  lemma SplittingFacts(nodes: Nodes, nodes': Nodes, info: Info, pends: Pends, root: Ptr, n: Ptr, m: Ptr)
    requires Splitting(nodes, nodes', info, pends, root, n, m)
    ensures n in nodes && n in info && m !in nodes && m !in info && n != m && n !in pends && !Hanging(pends, n)
      && !Hanging(pends, m) && m !in pends
    ensures info.Keys == nodes.Keys && nodes'.Keys == nodes.Keys + {m} && |LiveOf(nodes, n)| == 7 && NodeOk(nodes[n])
    ensures LiveOf(nodes', n) == LiveOf(nodes, n)[..4] && LiveOf(nodes', m) == LiveOf(nodes, n)[4..]
      && NodeOk(nodes'[n]) && NodeOk(nodes'[m])
    ensures nodes'[n].leftmost == nodes[n].leftmost && nodes'[n].parent == nodes[n].parent
      && nodes'[n].isLeaf == nodes[n].isLeaf == nodes'[m].isLeaf
    ensures forall c :: c in nodes && c != n ==> nodes'[c] == nodes[c].(parent := ParentAfter(nodes, info, n, m, c))
  {
    hide ParentAfter, LiveOf, NodeOk, Hanging;
  }

  lemma SplittingWeb(nodes: Nodes, nodes': Nodes, info: Info, pends: Pends, root: Ptr, n: Ptr, m: Ptr)
    requires Splitting(nodes, nodes', info, pends, root, n, m)
    ensures W.Splitting(V(nodes), V(nodes'), info, pends, root, n, m, 4)
    ensures AllOk(nodes) ==> AllOk(nodes')
    ensures n in info && |LiveOf(nodes, n)| == 7 && InfoAfter(nodes, info, n, m) == W.InfoAfter(V(nodes), info, n, m, 4)
  {
    hide *;
    SplittingFacts(nodes, nodes', info, pends, root, n, m);
    Seen(nodes);
    Seen(nodes');
    SeenAt(nodes, n);
    SeenAt(nodes', n);
    SeenAt(nodes', m);
    forall c | c in nodes && c != n
      ensures V(nodes')[c] == V(nodes)[c].(parent := W.ParentAfter(V(nodes), info, n, m, 4, c))
      ensures NodeOk(nodes[c]) ==> NodeOk(nodes'[c])
    {
      ParentAfterIs(nodes, info, n, m, c);
      MovedWeb(nodes, info, n, c);
      SeenAt(nodes, c);
      W.ParentAfterIs(V(nodes), info, n, m, 4, c);
      SameView(nodes[c], nodes'[c]);
      ViewIs(nodes[c]);
    }
    if AllOk(nodes) {
      forall c | c in nodes' ensures NodeOk(nodes'[c]) {
        if c in nodes { OkAt(nodes, c); }
      }
      AllOkIs(nodes');
    }
    W.SplittingIs(V(nodes), V(nodes'), info, pends, root, n, m, 4);
    InfoAfterWeb(nodes, info, n, m);
  }

  lemma MovedWeb(nodes: Nodes, info: Info, n: Ptr, c: Ptr)
    ensures Moved(nodes, info, n, c) <==> W.Moved(V(nodes), info, n, 4, c)
  {
    hide W.Moved, V;
  }

  lemma InfoAfterWeb(nodes: Nodes, info: Info, n: Ptr, m: Ptr)
    requires n in info && |LiveOf(nodes, n)| == 7
    ensures |W.LiveOf(V(nodes), n)| == 7 && InfoAfter(nodes, info, n, m) == W.InfoAfter(V(nodes), info, n, m, 4)
  {
    Seen(nodes);
    hide W.InfoAfter, V, LiveOf;
  }

  lemma SplittingParts(nodes: Nodes, nodes': Nodes, info: Info, pends: Pends, root: Ptr, n: Ptr, m: Ptr)
    requires Splitting(nodes, nodes', info, pends, root, n, m) && NodeFits(nodes, info, n)
    ensures n in nodes && n in info && m !in nodes && m !in info && n != m && n !in pends && !Hanging(pends, n)
      && !Hanging(pends, m) && m !in pends
    ensures info.Keys == nodes.Keys && nodes'.Keys == nodes.Keys + {m} && |LiveOf(nodes, n)| == 7 && NodeOk(nodes[n])
    ensures LiveOf(nodes', n) == LiveOf(nodes, n)[..4] && LiveOf(nodes', m) == LiveOf(nodes, n)[4..]
      && NodeOk(nodes'[n]) && NodeOk(nodes'[m])
    ensures nodes'[n].leftmost == nodes[n].leftmost && nodes'[n].parent == nodes[n].parent
      && nodes'[n].isLeaf == nodes[n].isLeaf == nodes'[m].isLeaf
    ensures forall c :: c in nodes && c != n ==> nodes'[c] == nodes[c].(parent := ParentAfter(nodes, info, n, m, c))
    ensures var key, info' := LiveOf(nodes, n)[4].key, InfoAfter(nodes, info, n, m);
      && info[n].lo < key < info[n].hi
      && info' == info[n := info[n].(hi := key)][m := Range(key, info[n].hi, info[n].level)]
      && info'[n] == Range(info[n].lo, key, info[n].level) && info'[m] == Range(key, info[n].hi, info[n].level)
      && info'.Keys == nodes'.Keys && forall c :: c in info && c != n ==> info'[c] == info[c]
  {
    hide *;
    SplittingFacts(nodes, nodes', info, pends, root, n, m);
    SplittingWeb(nodes, nodes', info, pends, root, n, m);
    FitsWeb(nodes, info, n);
    Seen(nodes);
    Seen(nodes');
    W.SplittingParts(V(nodes), V(nodes'), info, pends, root, n, m, 4);
  }

  lemma SplitNode(nodes: Nodes, nodes': Nodes, info: Info, pends: Pends, root: Ptr, n: Ptr, m: Ptr)
    requires Shape(nodes, info, pends, root) && Splitting(nodes, nodes', info, pends, root, n, m)
    ensures n in info && |LiveOf(nodes, n)| == 7
    ensures Shape(nodes', InfoAfter(nodes, info, n, m), pends[n := m], root)
  {
    hide *;
    SplittingIn(nodes, nodes', info, pends, root, n, m);
    SplittingWeb(nodes, nodes', info, pends, root, n, m);
    ShapeWeb(nodes, info, pends, root);
    ShapeWeb(nodes', InfoAfter(nodes, info, n, m), pends[n := m], root);
    W.SplitNode(V(nodes), V(nodes'), info, pends, root, n, m, 4);
  }

  lemma MovedParent(nodes: Nodes, info: Info, pends: Pends, n: Ptr, c: Ptr)
    requires Moved(nodes, info, n, c) && n in info && (info[n].level > 0 ==> W.KidsFit(V(nodes), info, pends, n))
    ensures c in nodes && nodes[c].parent == n && c in info && info[c].level + 1 == info[n].level
    ensures exists i :: 4 <= i < |LiveOf(nodes, n)| && LiveOf(nodes, n)[i] == Pair(info[c].lo, c)
  {
    hide *;
    MovedWeb(nodes, info, n, c);
    Seen(nodes);
    W.MovedParent(V(nodes), info, pends, n, 4, c);
    SeenAt(nodes, c);
  }

  // ---------------------------------------------------------------- a new root

  /** The root has been split into a and b: a new node r takes both. */
  lemma NewRoot(nodes: Nodes, nodes': Nodes, info: Info, a: Ptr, b: Ptr, r: Ptr, R: Node)
    requires Shape(nodes, info, map[a := b], a) && r !in nodes && a in nodes && b in nodes && b in info && a in info
    requires NodeOk(R) && Live(R) == [Pair(info[b].lo, b)] && R.leftmost == a && !R.isLeaf
    requires nodes' == nodes[r := R][a := nodes[a].(parent := r)][b := nodes[b].(parent := r)]
    ensures Shape(nodes', info[r := Range(0, TOP, info[a].level + 1)], map[], r)
  {
    hide *;
    Seen(nodes);
    Seen(nodes');
    ShapeWeb(nodes, info, map[a := b], a);
    ShapeWeb(nodes', info[r := Range(0, TOP, info[a].level + 1)], map[], r);
    ViewIs(R);
    SameView(nodes[a], nodes[a].(parent := r));
    SameView(nodes[b], nodes[b].(parent := r));
    ViewIs(nodes[a]);
    ViewIs(nodes[b]);
    forall c | c in nodes' ensures V(nodes')[c]
        == (V(nodes)[r := ViewOf(R)][a := V(nodes)[a].(parent := r)][b := V(nodes)[b].(parent := r)])[c] {
      if c in nodes { SeenAt(nodes, c); }
      SeenAt(nodes', c);
    }
    assert V(nodes') == V(nodes)[r := ViewOf(R)][a := V(nodes)[a].(parent := r)][b := V(nodes)[b].(parent := r)];
    forall n | n in nodes' ensures NodeOk(nodes'[n]) {
      OkAt(nodes, a);
      OkAt(nodes, b);
      if n in nodes { OkAt(nodes, n); }
    }
    AllOkIs(nodes');
    W.NewRoot(V(nodes), V(nodes'), info, a, b, r, ViewOf(R));
  }

  // ---------------------------------------------------------------- a leaf changes

  /** Other entries in one leaf, within its range. */
  lemma LeafChanged(nodes: Nodes, nodes': Nodes, info: Info, pends: Pends, root: Ptr, n: Ptr)
    requires Shape(nodes, info, pends, root) && n in nodes && n in info && info[n].level == 0
    requires n in nodes' && nodes' == nodes[n := nodes'[n]]
      && nodes'[n] == nodes[n].(slot := nodes'[n].slot, entries := nodes'[n].entries, leftmost := nodes'[n].leftmost)
    requires NodeOk(nodes'[n]) && KeysBetween(Live(nodes'[n]), info[n].lo, info[n].hi - 1)
    ensures Shape(nodes', info, pends, root)
  {
    hide *;
    Seen(nodes);
    Seen(nodes');
    ShapeWeb(nodes, info, pends, root);
    ShapeWeb(nodes', info, pends, root);
    ViewIs(nodes[n]);
    ViewIs(nodes'[n]);
    SeenAt(nodes', n);
    forall c | c in nodes' ensures V(nodes')[c] == (V(nodes)[n := V(nodes')[n]])[c] {
      if c in nodes { SeenAt(nodes, c); }
      SeenAt(nodes', c);
    }
    assert V(nodes') == V(nodes)[n := V(nodes')[n]];
    forall c | c in nodes' ensures NodeOk(nodes'[c]) {
      if c != n { OkAt(nodes, c); }
    }
    AllOkIs(nodes');
    W.LeafChanged(V(nodes), V(nodes'), info, pends, root, n);
  }

  // ---------------------------------------------------------------- agreement with the map

  /** Nodes keep their live entries and ranges. */
  lemma AgreeFrame(nodes: Nodes, nodes': Nodes, info: Info, info': Info, abs: map<int, int>)
    requires Agree(nodes, info, abs)
    requires forall n :: n in nodes' && n in info' && info'[n].level == 0 ==>
      n in nodes && n in info && info'[n] == info[n] && LiveOf(nodes', n) == LiveOf(nodes, n)
    ensures Agree(nodes', info', abs)
  {
    hide *;
    Seen(nodes);
    Seen(nodes');
    AgreeWeb(nodes, info, abs);
    W.AgreeFrame(V(nodes), V(nodes'), info, info', abs);
    AgreeWeb(nodes', info', abs);
  }

  /** One leaf takes a new binding, loses one, or rebinds a key. */
  lemma AgreeChanged(nodes: Nodes, nodes': Nodes, info: Info, n: Ptr, abs: map<int, int>, abs': map<int, int>)
    requires Agree(nodes, info, abs) && Apart(info) && n in nodes && n in info && info[n].level == 0
      && nodes'.Keys == nodes.Keys
    requires forall c :: c in nodes && c != n ==> LiveOf(nodes', c) == LiveOf(nodes, c)
    requires forall c :: c in nodes && c in info && c != n ==> KeysBetween(LiveOf(nodes, c), info[c].lo, info[c].hi - 1)
    requires LeafAgrees(LiveOf(nodes', n), info[n].lo, info[n].hi, abs')
    requires forall k :: !(info[n].lo <= k < info[n].hi) ==>
      (k in abs' <==> k in abs) && (k in abs ==> abs'[k] == abs[k])
    ensures Agree(nodes', info, abs')
  {
    hide *;
    Seen(nodes);
    Seen(nodes');
    AgreeWeb(nodes, info, abs);
    W.AgreeChanged(V(nodes), V(nodes'), info, n, abs, abs');
    AgreeWeb(nodes', info, abs');
  }

  /** A leaf that is split shares its part of the map. */
  lemma AgreeSplit(nodes: Nodes, nodes': Nodes, info: Info, pends: Pends, root: Ptr, n: Ptr, m: Ptr, abs: map<int, int>)
    requires Shape(nodes, info, pends, root) && Splitting(nodes, nodes', info, pends, root, n, m)
      && Agree(nodes, info, abs)
    ensures n in info && |LiveOf(nodes, n)| == 7 && Agree(nodes', InfoAfter(nodes, info, n, m), abs)
  {
    hide *;
    SplittingIn(nodes, nodes', info, pends, root, n, m);
    SplittingWeb(nodes, nodes', info, pends, root, n, m);
    ShapeWeb(nodes, info, pends, root);
    AgreeWeb(nodes, info, abs);
    AgreeWeb(nodes', InfoAfter(nodes, info, n, m), abs);
    W.AgreeSplit(V(nodes), V(nodes'), info, pends, root, n, m, 4, abs);
  }

  lemma AgreeAt(nodes: Nodes, info: Info, n: Ptr, abs: map<int, int>)
    requires Agree(nodes, info, abs) && n in nodes && n in info && info[n].level == 0
    ensures LeafAgrees(LiveOf(nodes, n), info[n].lo, info[n].hi, abs)
  {
    hide *;
    Seen(nodes);
    AgreeWeb(nodes, info, abs);
    W.AgreeAt(V(nodes), info, n, abs);
  }

  // ---------------------------------------------------------------- descending

  /** n covers the key. */
  ghost predicate Covers(nodes: Nodes, info: Info, n: Ptr, key: int) {
    n in nodes && n in info && info[n].lo <= key < info[n].hi
  }

  lemma CoversParts(nodes: Nodes, info: Info, n: Ptr, key: int)
    requires Covers(nodes, info, n, key)
    ensures n in nodes && n in info && info[n].lo <= key < info[n].hi
  {
  }

  lemma CoversIs(nodes: Nodes, info: Info, n: Ptr, key: int)
    requires n in nodes && n in info && info[n].lo <= key < info[n].hi
    ensures Covers(nodes, info, n, key)
  {
  }

  /** The kid a search follows: the last one whose key is not larger, or the leftmost. */
  lemma DescendTo(nodes: Nodes, info: Info, root: Ptr, n: Ptr, key: int)
    requires Shape(nodes, info, map[], root) && Covers(nodes, info, n, key) && info[n].level > 0
    ensures NodeOk(nodes[n]) && LiveOf(nodes, n) == Live(nodes[n]) && LiveOf(nodes, n) != []
    ensures var live := LiveOf(nodes, n); var l := LowerBound(live, key);
      var c := if l < |live| && live[l].key == key then live[l].tid else if l > 0 then live[l - 1].tid
          else nodes[n].leftmost;
      Covers(nodes, info, c, key) && info[c].level + 1 == info[n].level
  {
    hide *;
    CoversParts(nodes, info, n, key);
    Seen(nodes);
    SeenAt(nodes, n);
    ShapeWeb(nodes, info, map[], root);
    OkAt(nodes, n);
    W.CoversIs(V(nodes), info, n, key);
    W.DescendTo(V(nodes), info, root, n, key);
    var live := LiveOf(nodes, n);
    var l := LowerBound(live, key);
    var c := if l < |live| && live[l].key == key then live[l].tid else if l > 0 then live[l - 1].tid
        else nodes[n].leftmost;
    W.CoversParts(V(nodes), info, c, key);
    CoversIs(nodes, info, c, key);
  }

  lemma RootCovers(nodes: Nodes, info: Info, root: Ptr, key: int)
    requires Shape(nodes, info, map[], root) && 0 <= key < TOP
    ensures Covers(nodes, info, root, key)
  {
    hide *;
    Seen(nodes);
    ShapeWeb(nodes, info, map[], root);
    W.RootCovers(V(nodes), info, root, key);
    W.CoversParts(V(nodes), info, root, key);
    CoversIs(nodes, info, root, key);
  }

  /** The leaf that covers a key decides it. */
  lemma LeafDecides(nodes: Nodes, info: Info, root: Ptr, abs: map<int, int>, n: Ptr, key: int)
    requires Shape(nodes, info, map[], root) && Agree(nodes, info, abs) && Covers(nodes, info, n, key)
      && info[n].level == 0
    ensures NodeOk(nodes[n]) && LiveOf(nodes, n) == Live(nodes[n])
      && KeysBetween(Live(nodes[n]), info[n].lo, info[n].hi - 1)
    ensures LeafAgrees(Live(nodes[n]), info[n].lo, info[n].hi, abs)
    ensures key in abs <==> HasKey(Live(nodes[n]), key)
  {
    hide *;
    CoversParts(nodes, info, n, key);
    Seen(nodes);
    SeenAt(nodes, n);
    ShapeWeb(nodes, info, map[], root);
    AgreeWeb(nodes, info, abs);
    OkAt(nodes, n);
    W.CoversIs(V(nodes), info, n, key);
    W.LeafDecides(V(nodes), info, root, abs, n, key);
  }

  // ---------------------------------------------------------------- one binding in one leaf

  /** One leaf gets other entries, and the map follows. */
  lemma LeafUpdated(nodes: Nodes, nodes': Nodes, info: Info, root: Ptr, n: Ptr, abs: map<int, int>, abs': map<int, int>)
    requires Shape(nodes, info, map[], root) && Agree(nodes, info, abs) && n in nodes && n in info && info[n].level == 0
    requires n in nodes' && nodes' == nodes[n := nodes'[n]]
      && nodes'[n] == nodes[n].(slot := nodes'[n].slot, entries := nodes'[n].entries)
    requires NodeOk(nodes'[n]) && KeysBetween(Live(nodes'[n]), info[n].lo, info[n].hi - 1)
    requires LeafAgrees(Live(nodes'[n]), info[n].lo, info[n].hi, abs')
    requires forall k :: !(info[n].lo <= k < info[n].hi) ==>
      (k in abs' <==> k in abs) && (k in abs ==> abs'[k] == abs[k])
    ensures Shape(nodes', info, map[], root) && Agree(nodes', info, abs')
  {
    hide *;
    ShapeParts(nodes, info, map[], root);
    LeafChanged(nodes, nodes', info, map[], root, n);
    LiveOfIs(nodes', n);
    forall c | c in nodes ensures c != n ==> LiveOf(nodes', c) == LiveOf(nodes, c) {
      if c != n { SameLive(nodes, nodes', c); }
    }
    forall c | c in nodes && c in info ensures KeysBetween(LiveOf(nodes, c), info[c].lo, info[c].hi - 1) {
      ShapeAt(nodes, info, map[], root, c);
      NodeFitsParts(nodes, info, c);
    }
    AgreeChanged(nodes, nodes', info, n, abs, abs');
  }

  lemma LiveParts(n: Node)
    requires NodeOk(n)
    ensures Sized(n) && |n.slot| == 8 && |n.entries| == 7 && 0 <= n.slot[0] <= 7 && |Live(n)| == n.slot[0]
      && Strict(Live(n))
    ensures forall j :: 1 <= j <= n.slot[0] ==> 0 <= n.slot[j] < 7 && n.entries[n.slot[j]] == Live(n)[j - 1]
  {
  }
}
