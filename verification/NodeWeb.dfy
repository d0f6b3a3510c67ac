/** A B+-tree with parent pointers as a web of nodes: each node covers a range of keys, and what one
    node says of another is stated locally, so that a split that climbs through parent pointers can be
    followed node by node.  How a node stores its entries does not matter here. */
module NodeWeb {
  import opened SortedPairs
  import opened KeyRanges

  /** What the web needs to know of a node: its entries in key order; in an inner node the tid of an
      entry is a child, and the leftmost child has smaller keys. */
  datatype View = View(live: seq<Pair>, leftmost: Ptr, parent: Ptr, isLeaf: bool)

  type Views = map<Ptr, View>

  ghost function LiveOf(nodes: Views, n: Ptr): seq<Pair> {
    if n in nodes then nodes[n].live else []
  }

  ghost predicate IsKid(nodes: Views, info: Info, pends: Pends, n: Ptr, c: Ptr, lo: int, hi: int) {
    && n in info && c in nodes && c in info && !Hanging(pends, c)
    && info[c].level + 1 == info[n].level && info[c].lo == lo && ShownHi(info, pends, c) == hi
    && nodes[c].parent == n
  }

  ghost predicate NodeFits(nodes: Views, info: Info, n: Ptr) {
    && n in nodes && n in info && Strict(nodes[n].live)
    && info[n].lo < info[n].hi
    && (nodes[n].isLeaf <==> info[n].level == 0)
    && KeysBetween(nodes[n].live, info[n].lo, info[n].hi - 1)
  }

  /** The kids of an inner node partition its range.  The leftmost pointer counts only if the first
      key leaves room for it; otherwise it may never have been set. */
  ghost predicate KidsFit(nodes: Views, info: Info, pends: Pends, n: Ptr) {
    n in nodes && n in info &&
    var live := LiveOf(nodes, n);
    && live != []
    && (forall i :: 0 <= i < |live| ==> IsKid(nodes, info, pends, n, live[i].tid, live[i].key,
       KidHi(live, info[n].hi, i)))
    && (live[0].key > info[n].lo ==> IsKid(nodes, info, pends, n, nodes[n].leftmost, info[n].lo, live[0].key))
  }

  ghost predicate ListsKid(nodes: Views, info: Info, p: Ptr, c: Ptr) {
    && p in nodes && p in info && c in info && info[p].level == info[c].level + 1
    && (ListsAt(LiveOf(nodes, p), c, info[c].lo)
        || (nodes[p].leftmost == c && info[c].lo == info[p].lo && LiveOf(nodes, p) != []
           && LiveOf(nodes, p)[0].key > info[p].lo))
  }

  ghost predicate ParentFits(nodes: Views, info: Info, pends: Pends, root: Ptr, n: Ptr) {
    n == root || Hanging(pends, n) || (n in nodes && ListsKid(nodes, info, nodes[n].parent, n))
  }

  ghost predicate Shape(nodes: Views, info: Info, pends: Pends, root: Ptr) {
    && info.Keys == nodes.Keys && Apart(info) && PendsFit(info, pends) && RootFits(info, pends, root)
    && (forall n :: n in nodes ==> NodeFits(nodes, info, n))
    && (forall n :: n in nodes && info[n].level > 0 ==> KidsFit(nodes, info, pends, n))
    && (forall n :: n in nodes ==> ParentFits(nodes, info, pends, root, n))
  }

  // ---------------------------------------------------------------- contents

  /** Every leaf holds the part of the map that it covers. */
  ghost predicate Agree(nodes: Views, info: Info, abs: map<int, int>) {
    forall n :: n in nodes && n in info && info[n].level == 0
        ==> LeafAgrees(LiveOf(nodes, n), info[n].lo, info[n].hi, abs)
  }

  // ---------------------------------------------------------------- facts by unfolding

  lemma ShapeAt(nodes: Views, info: Info, pends: Pends, root: Ptr, n: Ptr)
    requires Shape(nodes, info, pends, root) && n in nodes
    ensures NodeFits(nodes, info, n) && ParentFits(nodes, info, pends, root, n)
    ensures info[n].level > 0 ==> KidsFit(nodes, info, pends, n)
  {
    hide NodeFits, KidsFit, ParentFits, Apart, PendsFit, RootFits;
  }

  lemma ShapeIs(nodes: Views, info: Info, pends: Pends, root: Ptr)
    requires info.Keys == nodes.Keys && Apart(info) && PendsFit(info, pends) && RootFits(info, pends, root)
    requires forall n :: n in nodes ==> NodeFits(nodes, info, n)
    requires forall n :: n in nodes && info[n].level > 0 ==> KidsFit(nodes, info, pends, n)
    requires forall n :: n in nodes ==> ParentFits(nodes, info, pends, root, n)
    ensures Shape(nodes, info, pends, root)
  {
    hide NodeFits, KidsFit, ParentFits, Apart, PendsFit, RootFits;
  }

  // ---------------------------------------------------------------- the parent learns of a split

  /** Position of the new entry: right behind the kid that was split. */
  lemma NewKidPosition(nodes: Views, info: Info, pends: Pends, root: Ptr, a: Ptr)
      returns (l: nat)
    requires Shape(nodes, info, pends, root) && a in pends && a in nodes && a != root
    ensures pends[a] in nodes && pends[a] in info && info.Keys == nodes.Keys
    ensures var p, key := nodes[a].parent, info[pends[a]].lo; var live := LiveOf(nodes, p);
      && p in nodes && Strict(nodes[p].live) && live == nodes[p].live && info[p].level == info[a].level + 1
         && live != []
      && l == LowerBound(live, key) <= |live| && !HasKey(live, key) && info[p].lo < key < info[p].hi
      && (if l > 0 then live[l - 1] == Pair(info[a].lo, a) && info[pends[a]].hi == KidHi(live, info[p].hi, l - 1)
          else nodes[p].leftmost == a && info[a].lo == info[p].lo && info[pends[a]].hi == live[0].key)
  {
    hide *;
    var b, p := pends[a], nodes[a].parent;
    ShapeParts(nodes, info, pends, root);
    PendsParts(info, pends, a);
    var key := info[b].lo;
    ShapeAt(nodes, info, pends, root, a);
    ShapeAt(nodes, info, pends, root, b);
    NodeFitsParts(nodes, info, a);
    NodeFitsParts(nodes, info, b);
    ParentParts(nodes, info, pends, root, a);
    ListsParts(nodes, info, p, a);
    ShapeAt(nodes, info, pends, root, p);
    NodeFitsParts(nodes, info, p);
    KidsParts(nodes, info, pends, p);
    var live := LiveOf(nodes, p);
    if i :| 0 <= i < |live| && live[i] == Pair(info[a].lo, a) {
      l := i + 1;
      KidParent(nodes, info, pends, p, live[i].tid, live[i].key, KidHi(live, info[p].hi, i));
      PositionBehind(live, info[p].lo, info[p].hi, i, key, info[b].hi);
    } else {
      l := 0;
      KidParent(nodes, info, pends, p, nodes[p].leftmost, info[p].lo, live[0].key);
      PositionFirst(live, info[p].lo, info[p].hi, key);
    }
  }

  lemma ListsParts(nodes: Views, info: Info, p: Ptr, c: Ptr)
    requires ListsKid(nodes, info, p, c)
    ensures p in nodes && p in info && c in info && info[p].level == info[c].level + 1
    ensures (exists i :: 0 <= i < |LiveOf(nodes, p)| && LiveOf(nodes, p)[i] == Pair(info[c].lo, c))
            || (nodes[p].leftmost == c && info[c].lo == info[p].lo && LiveOf(nodes, p) != []
               && LiveOf(nodes, p)[0].key > info[p].lo)
  {
    hide LiveOf;
  }

  /** The pending pair of a is entered into the parent. */
  lemma Resolve(nodes: Views, nodes': Views, info: Info, pends: Pends, root: Ptr, a: Ptr, p': View)
    requires Shape(nodes, info, pends, root) && a in pends && a in nodes && a != root
    requires pends[a] in nodes && pends[a] in info && nodes[a].parent in nodes
    requires var b, p := pends[a], nodes[a].parent;
      && Strict(p'.live) && p'.live == PutPair(LiveOf(nodes, p), Pair(info[b].lo, b))
      && p' == nodes[p].(live := p'.live)
      && nodes' == nodes[p := p'][b := nodes[b].(parent := p)]
    ensures Shape(nodes', info, pends - {a}, root)
  {
    hide *;
    var b, p := pends[a], nodes[a].parent;
    var pends' := pends - {a};
    ShapeParts(nodes, info, pends, root);
    PendsParts(info, pends, a);
    var l := NewKidPosition(nodes, info, pends, root, a);
    FewerPends(info, pends, a, root);
    ShapeAt(nodes, info, pends, root, b);
    NodeFitsParts(nodes, info, b);
    PutPairIs(LiveOf(nodes, p), Pair(info[b].lo, b));
    ResolvingIs(nodes, nodes', info, pends, root, a, p', l);
    forall n | n in nodes'
      ensures NodeFits(nodes', info, n)
      ensures info[n].level > 0 ==> KidsFit(nodes', info, pends', n)
      ensures ParentFits(nodes', info, pends', root, n)
    {
      ShapeAt(nodes, info, pends, root, n);
      ResolvedNode(nodes, nodes', info, pends, root, a, p', l, n);
      if info[n].level > 0 { ResolvedKids(nodes, nodes', info, pends, root, a, p', l, n); }
      ResolvedParent(nodes, nodes', info, pends, root, a, p', l, n);
    }
    ShapeIs(nodes', info, pends', root);
  }

  lemma ShapeParts(nodes: Views, info: Info, pends: Pends, root: Ptr)
    requires Shape(nodes, info, pends, root)
    ensures info.Keys == nodes.Keys && Apart(info) && PendsFit(info, pends) && RootFits(info, pends, root)
      && root in nodes
  {
    hide NodeFits, KidsFit, ParentFits, Apart, PendsFit;
  }

  /** Before the parent learns: a, split into a and b, and the place l of b among the kids of p. */
  ghost predicate Resolving(nodes: Views, nodes': Views, info: Info, pends: Pends, root: Ptr, a: Ptr, p': View,
                            l: nat) {
    && info.Keys == nodes.Keys && a in pends && a in nodes && a != root && pends[a] in nodes && nodes[a].parent in nodes
    && var b, p := pends[a], nodes[a].parent;
    var live, key := LiveOf(nodes, p), info[b].lo;
    && b != p && l <= |live| && b !in pends && !Hanging(pends, a) && info[b].level == info[a].level
       && info[a].hi == key < info[b].hi
    && Strict(nodes[p].live) && Strict(p'.live) && p'.live == live[..l] + [Pair(key, b)] + live[l..]
    && p' == nodes[p].(live := p'.live)
    && nodes' == nodes[p := p'][b := nodes[b].(parent := p)]
    && info[p].level == info[a].level + 1 && live != [] && info[p].lo < key < info[p].hi
    && (if l > 0 then live[l - 1] == Pair(info[a].lo, a) && info[b].hi == KidHi(live, info[p].hi, l - 1)
        else nodes[p].leftmost == a && info[a].lo == info[p].lo && info[b].hi == live[0].key)
  }

  lemma ResolvingIs(nodes: Views, nodes': Views, info: Info, pends: Pends, root: Ptr, a: Ptr, p': View, l: nat)
    requires info.Keys == nodes.Keys && a in pends && a in nodes && a != root && pends[a] in nodes
      && nodes[a].parent in nodes
    requires var b, p := pends[a], nodes[a].parent;
      var live, key := LiveOf(nodes, p), info[b].lo;
      && b !in pends && !Hanging(pends, a) && info[b].level == info[a].level && info[a].hi == key < info[b].hi
      && Strict(nodes[p].live) && Strict(p'.live) && l <= |live| && p'.live == live[..l] + [Pair(key, b)] + live[l..]
      && p' == nodes[p].(live := p'.live)
      && nodes' == nodes[p := p'][b := nodes[b].(parent := p)]
      && info[p].level == info[a].level + 1 && live != [] && info[p].lo < key < info[p].hi
      && (if l > 0 then live[l - 1] == Pair(info[a].lo, a) && info[b].hi == KidHi(live, info[p].hi, l - 1)
          else nodes[p].leftmost == a && info[a].lo == info[p].lo && info[b].hi == live[0].key)
    ensures Resolving(nodes, nodes', info, pends, root, a, p', l)
  {
    hide LiveOf, KidHi;
  }

  lemma NodeFitsParts(nodes: Views, info: Info, n: Ptr)
    requires NodeFits(nodes, info, n)
    ensures n in nodes && n in info && Strict(nodes[n].live) && info[n].lo < info[n].hi
      && (nodes[n].isLeaf <==> info[n].level == 0)
    ensures KeysBetween(nodes[n].live, info[n].lo, info[n].hi - 1) && Strict(nodes[n].live)
    ensures LiveOf(nodes, n) == nodes[n].live
  {
    hide KeysBetween, Strict;
  }

  lemma SameLive(nodes: Views, nodes': Views, n: Ptr)
    requires n in nodes && n in nodes' && nodes'[n].live == nodes[n].live
    ensures LiveOf(nodes', n) == LiveOf(nodes, n)
    ensures Strict(nodes[n].live) ==> Strict(nodes'[n].live)
    ensures Strict(nodes[n].live) ==> nodes'[n].live == nodes[n].live
  {
  }

  lemma ResolvedNode(nodes: Views, nodes': Views, info: Info, pends: Pends, root: Ptr, a: Ptr, p': View, l: nat, n: Ptr)
    requires Resolving(nodes, nodes', info, pends, root, a, p', l) && n in nodes && NodeFits(nodes, info, n)
    ensures NodeFits(nodes', info, n)
  {
    hide LiveOf, KidHi, Strict;
    var p := nodes[a].parent;
    NodeFitsParts(nodes, info, n);
    if n == p {
      LiveOfIs(nodes, p);
      PutBetween(nodes[p].live, l, Pair(info[pends[a]].lo, pends[a]), info[p].lo, info[p].hi - 1);
    } else {
      SameLive(nodes, nodes', n);
    }
  }

  lemma LiveOfIs(nodes: Views, n: Ptr)
    requires n in nodes && Strict(nodes[n].live)
    ensures LiveOf(nodes, n) == nodes[n].live
  {
  }

  /** What Resolving says of the kids' facts that do not change. */
  lemma KidKept(nodes: Views, nodes': Views, info: Info, pends: Pends, root: Ptr, a: Ptr, p': View, l: nat, n: Ptr,
                c: Ptr, lo: int, hi: int)
    requires Resolving(nodes, nodes', info, pends, root, a, p', l) && n in nodes && c != a
    requires PendsFit(info, pends) && RootFits(info, pends, root) && IsKid(nodes, info, pends, n, c, lo, hi)
    ensures IsKid(nodes', info, pends - {a}, n, c, lo, hi)
  {
    hide LiveOf, KidHi, ShownHi;
    FewerPends(info, pends, a, root);
    hide PendsFit, RootFits;
    assert c != pends[a];
  }

  lemma ResolvedKids(nodes: Views, nodes': Views, info: Info, pends: Pends, root: Ptr, a: Ptr, p': View, l: nat, n: Ptr)
    requires Resolving(nodes, nodes', info, pends, root, a, p', l) && n in nodes && NodeFits(nodes, info, n)
      && KidsFit(nodes, info, pends, n)
    requires PendsFit(info, pends) && RootFits(info, pends, root)
    ensures KidsFit(nodes', info, pends - {a}, n)
  {
    hide *;
    ResolvingParts(nodes, nodes', info, pends, root, a, p', l);
    var p := nodes[a].parent;
    if n == p {
      ResolvedKidsHere(nodes, nodes', info, pends, root, a, p', l);
    } else {
      KidsParts(nodes, info, pends, n);
      SameLive(nodes, nodes', n);
      var live := LiveOf(nodes, n);
      forall i | 0 <= i < |live|
        ensures IsKid(nodes', info, pends - {a}, n, live[i].tid, live[i].key, KidHi(live, info[n].hi, i))
      {
        KidParent(nodes, info, pends, n, live[i].tid, live[i].key, KidHi(live, info[n].hi, i));
        KidKept(nodes, nodes', info, pends, root, a, p', l, n, live[i].tid, live[i].key, KidHi(live, info[n].hi, i));
      }
      if live[0].key > info[n].lo {
        KidParent(nodes, info, pends, n, nodes[n].leftmost, info[n].lo, live[0].key);
        KidKept(nodes, nodes', info, pends, root, a, p', l, n, nodes[n].leftmost, info[n].lo, live[0].key);
      }
      KidsIs(nodes', info, pends - {a}, n, live);
    }
  }

  lemma ResolvingParts(nodes: Views, nodes': Views, info: Info, pends: Pends, root: Ptr, a: Ptr, p': View, l: nat)
    requires Resolving(nodes, nodes', info, pends, root, a, p', l)
    ensures info.Keys == nodes.Keys && nodes'.Keys == nodes.Keys && a in pends && a in nodes && a != root
      && pends[a] in nodes && nodes[a].parent in nodes
    ensures var b, p := pends[a], nodes[a].parent;
      && b != p && b !in pends && !Hanging(pends, a) && Hanging(pends, b) && info[b].level == info[a].level
         && info[a].hi == info[b].lo < info[b].hi
      && Strict(nodes[p].live) && Strict(p'.live) && p'.live == LiveOf(nodes', p)
      && nodes'[p] == p' && p'.leftmost == nodes[p].leftmost && p'.parent == nodes[p].parent
         && p'.isLeaf == nodes[p].isLeaf
      && nodes'[b] == nodes[b].(parent := p)
      && (forall n :: n in nodes && n != p && n != b ==> nodes'[n] == nodes[n])
      && info[p].level == info[a].level + 1 && LiveOf(nodes, p) != [] && l <= |LiveOf(nodes, p)|
         && info[p].lo < info[b].lo < info[p].hi
      && p'.live == LiveOf(nodes, p)[..l] + [Pair(info[b].lo, b)] + LiveOf(nodes, p)[l..]
    ensures var b, p := pends[a], nodes[a].parent;
      && (l > 0 ==>
         LiveOf(nodes, p)[l - 1] == Pair(info[a].lo, a) && info[b].hi == KidHi(LiveOf(nodes, p), info[p].hi, l - 1))
      && (l == 0 ==> nodes[p].leftmost == a && info[a].lo == info[p].lo && info[b].hi == LiveOf(nodes, p)[0].key)
    ensures forall n :: n in nodes && n != nodes[a].parent ==>
      nodes'[n].live == nodes[n].live && nodes'[n].leftmost == nodes[n].leftmost
  {
    hide KidHi, Strict;
  }

  lemma KidsParts(nodes: Views, info: Info, pends: Pends, n: Ptr)
    requires KidsFit(nodes, info, pends, n)
    ensures n in nodes && n in info
    ensures var live := LiveOf(nodes, n);
      && live != []
      && (forall i :: 0 <= i < |live| ==> IsKid(nodes, info, pends, n, live[i].tid, live[i].key,
         KidHi(live, info[n].hi, i)))
      && (live[0].key > info[n].lo ==> IsKid(nodes, info, pends, n, nodes[n].leftmost, info[n].lo, live[0].key))
  {
    hide IsKid, KidHi, LiveOf;
  }

  lemma KidsIs(nodes: Views, info: Info, pends: Pends, n: Ptr, live: seq<Pair>)
    requires n in nodes && n in info && live == LiveOf(nodes, n) && live != []
    requires forall i :: 0 <= i < |live| ==> IsKid(nodes, info, pends, n, live[i].tid, live[i].key,
      KidHi(live, info[n].hi, i))
    requires live[0].key > info[n].lo ==> IsKid(nodes, info, pends, n, nodes[n].leftmost, info[n].lo, live[0].key)
    ensures KidsFit(nodes, info, pends, n)
  {
    hide IsKid, KidHi, LiveOf;
  }

  lemma KidParent(nodes: Views, info: Info, pends: Pends, n: Ptr, c: Ptr, lo: int, hi: int)
    requires IsKid(nodes, info, pends, n, c, lo, hi)
    ensures c in nodes && c in info && n in info && nodes[c].parent == n && info[c].lo == lo && !Hanging(pends, c)
      && info[c].level + 1 == info[n].level
    ensures ShownHi(info, pends, c) == hi
  {
    hide ShownHi;
  }

  lemma ResolvedKidsHere(nodes: Views, nodes': Views, info: Info, pends: Pends, root: Ptr, a: Ptr, p': View, l: nat)
    requires Resolving(nodes, nodes', info, pends, root, a, p', l)
    requires var p := nodes[a].parent; NodeFits(nodes, info, p) && KidsFit(nodes, info, pends, p)
    requires PendsFit(info, pends) && RootFits(info, pends, root)
    ensures KidsFit(nodes', info, pends - {a}, nodes[a].parent)
  {
    hide *;
    ResolvingParts(nodes, nodes', info, pends, root, a, p', l);
    var b, p := pends[a], nodes[a].parent;
    var pends' := pends - {a};
    KidsParts(nodes, info, pends, p);
    NodeFitsParts(nodes, info, p);
    FewerPends(info, pends, a, root);
    var live, live' := LiveOf(nodes, p), LiveOf(nodes', p);
    var key := info[b].lo;
    Inserted(live, live', l, Pair(key, b));
    IsKidHere(nodes', info, pends', p, b, key, info[b].hi);
    IsKidHere(nodes', info, pends', p, a, info[a].lo, key);
    forall i | 0 <= i < |live'|
      ensures IsKid(nodes', info, pends', p, live'[i].tid, live'[i].key, KidHi(live', info[p].hi, i))
    {
      InsertedHi(live, live', l, Pair(key, b), info[p].hi, i);
      if i != l && i != l - 1 {
        var j := if i < l then i else i - 1;
        KidParent(nodes, info, pends, p, live[j].tid, live[j].key, KidHi(live, info[p].hi, j));
        NotSplitOne(live, l, j, info[a].lo, info[p].lo, info[p].hi - 1);
        KidKept(nodes, nodes', info, pends, root, a, p', l, p, live[j].tid, live[j].key, KidHi(live, info[p].hi, j));
      }
    }
    if live'[0].key > info[p].lo && l > 0 {
      KidParent(nodes, info, pends, p, nodes[p].leftmost, info[p].lo, live[0].key);
      NotSplitFirst(live, l, info[p].lo, info[a].lo);
      KidKept(nodes, nodes', info, pends, root, a, p', l, p, nodes[p].leftmost, info[p].lo, live[0].key);
    }
    KidsIs(nodes', info, pends', p, live');
  }

  lemma IsKidHere(nodes: Views, info: Info, pends: Pends, n: Ptr, c: Ptr, lo: int, hi: int)
    requires n in info && c in nodes && c in info && !Hanging(pends, c) && info[c].level + 1 == info[n].level
      && info[c].lo == lo && nodes[c].parent == n
    requires c in pends ==> pends[c] in info && info[pends[c]].hi == hi
    requires c !in pends ==> info[c].hi == hi
    ensures IsKid(nodes, info, pends, n, c, lo, hi)
  {
  }

  lemma ResolvedParent(nodes: Views, nodes': Views, info: Info, pends: Pends, root: Ptr, a: Ptr, p': View, l: nat,
                       n: Ptr)
    requires Resolving(nodes, nodes', info, pends, root, a, p', l) && n in nodes
      && ParentFits(nodes, info, pends, root, n)
    requires PendsFit(info, pends) && RootFits(info, pends, root)
    ensures ParentFits(nodes', info, pends - {a}, root, n)
  {
    hide *;
    ResolvingParts(nodes, nodes', info, pends, root, a, p', l);
    FewerPends(info, pends, a, root);
    var b, p := pends[a], nodes[a].parent;
    var live, live' := LiveOf(nodes, p), LiveOf(nodes', p);
    Inserted(live, live', l, Pair(info[b].lo, b));
    if n == b {
      ListedHere(nodes', info, pends - {a}, root, b, l);
    } else if n != root && !Hanging(pends, n) {
      ParentParts(nodes, info, pends, root, n);
      ListsParts(nodes, info, nodes[n].parent, n);
      ListsKept(nodes, nodes', info, nodes[n].parent, n, p, l, b);
      ParentIs(nodes', info, pends - {a}, root, n);
    } else {
      ParentExempt(nodes', info, pends - {a}, root, n);
    }
  }

  lemma ListedHere(nodes: Views, info: Info, pends: Pends, root: Ptr, b: Ptr, l: nat)
    requires b in nodes && b in info && nodes[b].parent in nodes && nodes[b].parent in info
    requires info[nodes[b].parent].level == info[b].level + 1
    requires var live := LiveOf(nodes, nodes[b].parent); l < |live| && live[l] == Pair(info[b].lo, b)
    ensures ParentFits(nodes, info, pends, root, b)
  {
    hide LiveOf;
  }

  lemma ParentParts(nodes: Views, info: Info, pends: Pends, root: Ptr, n: Ptr)
    requires ParentFits(nodes, info, pends, root, n) && n != root && !Hanging(pends, n)
    ensures n in nodes && ListsKid(nodes, info, nodes[n].parent, n)
  {
    hide ListsKid;
  }

  lemma ParentIs(nodes: Views, info: Info, pends: Pends, root: Ptr, n: Ptr)
    requires n in nodes && ListsKid(nodes, info, nodes[n].parent, n)
    ensures ParentFits(nodes, info, pends, root, n)
  {
    hide ListsKid;
  }

  lemma ParentExempt(nodes: Views, info: Info, pends: Pends, root: Ptr, n: Ptr)
    requires n == root || Hanging(pends, n)
    ensures ParentFits(nodes, info, pends, root, n)
  {
  }

  lemma ListsKept(nodes: Views, nodes': Views, info: Info, q: Ptr, c: Ptr, p: Ptr, l: nat, b: Ptr)
    requires ListsKid(nodes, info, q, c) && q in nodes' && p in nodes && p in nodes' && p in info && b in info
    requires q != p ==> nodes'[q].live == nodes[q].live && nodes'[q].leftmost == nodes[q].leftmost
    requires nodes'[p].leftmost == nodes[p].leftmost && info[p].lo < info[b].lo
    requires var live, live' := LiveOf(nodes, p), LiveOf(nodes', p);
      l <= |live| && live' == live[..l] + [Pair(info[b].lo, b)] + live[l..]
    ensures ListsKid(nodes', info, q, c)
  {
    hide LiveOf;
    if q == p {
      var live, live' := LiveOf(nodes, p), LiveOf(nodes', p);
      Inserted(live, live', l, Pair(info[b].lo, b));
      if ListsAt(live, c, info[c].lo) {
        var i :| 0 <= i < |live| && live[i] == Pair(info[c].lo, c);
        assert live'[if i < l then i else i + 1] == live[i];
      }
    } else {
      SameLive(nodes, nodes', q);
    }
  }

  // ---------------------------------------------------------------- a node is split

  /** n keeps its first h entries, the new node m takes the others, and, if these are kids,
      their parent is m. */
  ghost predicate Splitting(nodes: Views, nodes': Views, info: Info, pends: Pends, root: Ptr, n: Ptr, m: Ptr, h: nat) {
    && info.Keys == nodes.Keys && n in nodes && m !in nodes && n !in pends && !Hanging(pends, n) && !Hanging(pends, m)
       && m !in pends
    && Strict(nodes[n].live) && 0 < h < |LiveOf(nodes, n)|
    && nodes'.Keys == nodes.Keys + {m}
    && Strict(nodes'[n].live) && LiveOf(nodes', n) == LiveOf(nodes, n)[..h]
    && Strict(nodes'[m].live) && LiveOf(nodes', m) == LiveOf(nodes, n)[h..]
    && nodes'[n].leftmost == nodes[n].leftmost && nodes'[n].parent == nodes[n].parent
       && nodes'[n].isLeaf == nodes[n].isLeaf == nodes'[m].isLeaf
    && (forall c :: c in nodes && c != n ==> nodes'[c] == nodes[c].(parent := ParentAfter(nodes, info, n, m, h, c)))
  }

  ghost predicate Moved(nodes: Views, info: Info, n: Ptr, h: nat, c: Ptr) {
    n in info && info[n].level > 0 && exists i :: h <= i < |LiveOf(nodes, n)| && LiveOf(nodes, n)[i].tid == c
  }

  ghost function ParentAfter(nodes: Views, info: Info, n: Ptr, m: Ptr, h: nat, c: Ptr): Ptr
    requires c in nodes
  {
    if Moved(nodes, info, n, h, c) then m else nodes[c].parent
  }

  /** The ranges after the split. */
  ghost function InfoAfter(nodes: Views, info: Info, n: Ptr, m: Ptr, h: nat): Info
    requires n in info && 0 < h < |LiveOf(nodes, n)|
  {
    var key := LiveOf(nodes, n)[h].key;
    info[n := info[n].(hi := key)][m := Range(key, info[n].hi, info[n].level)]
  }

  lemma SplittingParts(nodes: Views, nodes': Views, info: Info, pends: Pends, root: Ptr, n: Ptr, m: Ptr, h: nat)
    requires Splitting(nodes, nodes', info, pends, root, n, m, h) && NodeFits(nodes, info, n)
    ensures n in nodes && n in info && m !in nodes && m !in info && n != m && n !in pends && !Hanging(pends, n)
      && !Hanging(pends, m) && m !in pends
    ensures info.Keys == nodes.Keys && nodes'.Keys == nodes.Keys + {m} && 0 < h < |LiveOf(nodes, n)|
      && Strict(nodes[n].live)
    ensures LiveOf(nodes', n) == LiveOf(nodes, n)[..h] && LiveOf(nodes', m) == LiveOf(nodes, n)[h..]
      && Strict(nodes'[n].live) && Strict(nodes'[m].live)
    ensures nodes'[n].leftmost == nodes[n].leftmost && nodes'[n].parent == nodes[n].parent
      && nodes'[n].isLeaf == nodes[n].isLeaf == nodes'[m].isLeaf
    ensures forall c :: c in nodes && c != n ==> nodes'[c] == nodes[c].(parent := ParentAfter(nodes, info, n, m, h, c))
    ensures var key, info' := LiveOf(nodes, n)[h].key, InfoAfter(nodes, info, n, m, h);
      && info[n].lo < key < info[n].hi
      && info' == info[n := info[n].(hi := key)][m := Range(key, info[n].hi, info[n].level)]
      && info'[n] == Range(info[n].lo, key, info[n].level) && info'[m] == Range(key, info[n].hi, info[n].level)
      && info'.Keys == nodes'.Keys && forall c :: c in info && c != n ==> info'[c] == info[c]
  {
    hide *;
    SplittingFacts(nodes, nodes', info, pends, root, n, m, h);
    NodeFitsParts(nodes, info, n);
    UpperKeyInside(LiveOf(nodes, n), h, info[n].lo, info[n].hi);
    InfoAfterIs(nodes, info, n, m, h);
  }

  lemma SplittingFacts(nodes: Views, nodes': Views, info: Info, pends: Pends, root: Ptr, n: Ptr, m: Ptr, h: nat)
    requires Splitting(nodes, nodes', info, pends, root, n, m, h)
    ensures n in nodes && n in info && m !in nodes && m !in info && n != m && n !in pends && !Hanging(pends, n)
      && !Hanging(pends, m) && m !in pends
    ensures info.Keys == nodes.Keys && nodes'.Keys == nodes.Keys + {m} && 0 < h < |LiveOf(nodes, n)|
      && Strict(nodes[n].live)
    ensures LiveOf(nodes', n) == LiveOf(nodes, n)[..h] && LiveOf(nodes', m) == LiveOf(nodes, n)[h..]
      && Strict(nodes'[n].live) && Strict(nodes'[m].live)
    ensures nodes'[n].leftmost == nodes[n].leftmost && nodes'[n].parent == nodes[n].parent
      && nodes'[n].isLeaf == nodes[n].isLeaf == nodes'[m].isLeaf
    ensures forall c :: c in nodes && c != n ==> nodes'[c] == nodes[c].(parent := ParentAfter(nodes, info, n, m, h, c))
  {
    hide ParentAfter, LiveOf, Hanging;
  }

  lemma InfoAfterIs(nodes: Views, info: Info, n: Ptr, m: Ptr, h: nat)
    requires n in info && m !in info && 0 < h < |LiveOf(nodes, n)|
    ensures var key, info' := LiveOf(nodes, n)[h].key, InfoAfter(nodes, info, n, m, h);
      && info' == info[n := info[n].(hi := key)][m := Range(key, info[n].hi, info[n].level)]
      && info'[n] == Range(info[n].lo, key, info[n].level) && info'[m] == Range(key, info[n].hi, info[n].level)
      && info'.Keys == info.Keys + {m} && forall c :: c in info && c != n ==> info'[c] == info[c]
  {
    hide LiveOf;
  }

  lemma SplitNode(nodes: Views, nodes': Views, info: Info, pends: Pends, root: Ptr, n: Ptr, m: Ptr, h: nat)
    requires Shape(nodes, info, pends, root) && Splitting(nodes, nodes', info, pends, root, n, m, h)
    ensures n in info && 0 < h < |LiveOf(nodes, n)|
    ensures Shape(nodes', InfoAfter(nodes, info, n, m, h), pends[n := m], root)
  {
    hide *;
    SplittingIn(nodes, nodes', info, pends, root, n, m, h);
    ShapeAt(nodes, info, pends, root, n);
    SplittingParts(nodes, nodes', info, pends, root, n, m, h);
    ShapeParts(nodes, info, pends, root);
    var info', pends' := InfoAfter(nodes, info, n, m, h), pends[n := m];
    var key := LiveOf(nodes, n)[h].key;
    SplitRanges(info, info', pends, root, n, m, key);
    forall c | c in nodes'
      ensures NodeFits(nodes', info', c)
      ensures info'[c].level > 0 ==> KidsFit(nodes', info', pends', c)
      ensures ParentFits(nodes', info', pends', root, c)
    {
      SplitNodeFits(nodes, nodes', info, pends, root, n, m, h, c);
      if info'[c].level > 0 {
        if c == n || c == m {
          SplitKidsHere(nodes, nodes', info, pends, root, n, m, h, c);
        } else {
          ShapeAt(nodes, info, pends, root, c);
          SplitKidsElsewhere(nodes, nodes', info, pends, root, n, m, h, c);
        }
      }
      if c == m {
        HangingNew(pends, n, m);
        ParentExempt(nodes', info', pends', root, c);
      } else {
        ShapeAt(nodes, info, pends, root, c);
        SplitParentFits(nodes, nodes', info, pends, root, n, m, h, c);
      }
    }
    ShapeIs(nodes', info', pends', root);
  }

  lemma SplittingIs(nodes: Views, nodes': Views, info: Info, pends: Pends, root: Ptr, n: Ptr, m: Ptr, h: nat)
    requires info.Keys == nodes.Keys && n in nodes && m !in nodes && n !in pends && !Hanging(pends, n)
      && !Hanging(pends, m) && m !in pends
    requires Strict(nodes[n].live) && 0 < h < |LiveOf(nodes, n)|
    requires nodes'.Keys == nodes.Keys + {m}
    requires Strict(nodes'[n].live) && LiveOf(nodes', n) == LiveOf(nodes, n)[..h]
    requires Strict(nodes'[m].live) && LiveOf(nodes', m) == LiveOf(nodes, n)[h..]
    requires nodes'[n].leftmost == nodes[n].leftmost && nodes'[n].parent == nodes[n].parent
      && nodes'[n].isLeaf == nodes[n].isLeaf == nodes'[m].isLeaf
    requires forall c :: c in nodes && c != n ==> nodes'[c] == nodes[c].(parent := ParentAfter(nodes, info, n, m, h, c))
    ensures Splitting(nodes, nodes', info, pends, root, n, m, h)
  {
    hide ParentAfter, LiveOf, Hanging, Strict;
  }

  lemma SplittingIn(nodes: Views, nodes': Views, info: Info, pends: Pends, root: Ptr, n: Ptr, m: Ptr, h: nat)
    requires Splitting(nodes, nodes', info, pends, root, n, m, h)
    ensures n in nodes && info.Keys == nodes.Keys && 0 < h < |LiveOf(nodes, n)|
  {
    hide LiveOf, ParentAfter;
  }

  lemma SplitNodeFits(nodes: Views, nodes': Views, info: Info, pends: Pends, root: Ptr, n: Ptr, m: Ptr, h: nat, c: Ptr)
    requires Shape(nodes, info, pends, root) && Splitting(nodes, nodes', info, pends, root, n, m, h) && c in nodes'
    ensures n in info && 0 < h < |LiveOf(nodes, n)| && NodeFits(nodes', InfoAfter(nodes, info, n, m, h), c)
  {
    hide *;
    SplittingIn(nodes, nodes', info, pends, root, n, m, h);
    ShapeAt(nodes, info, pends, root, n);
    SplittingParts(nodes, nodes', info, pends, root, n, m, h);
    var info' := InfoAfter(nodes, info, n, m, h);
    NodeFitsParts(nodes, info, n);
    LiveOfIs(nodes', n);
    LiveOfIs(nodes', m);
    HalfBetween(LiveOf(nodes, n), h, info[n].lo, info[n].hi - 1);
    if c != n && c != m {
      ShapeAt(nodes, info, pends, root, c);
      NodeFitsParts(nodes, info, c);
      SameLive(nodes, nodes', c);
    }
    NodeFitsIs(nodes', info', c);
  }

  lemma NodeFitsIs(nodes: Views, info: Info, n: Ptr)
    requires n in nodes && n in info && Strict(nodes[n].live) && info[n].lo < info[n].hi
      && (nodes[n].isLeaf <==> info[n].level == 0)
    requires LiveOf(nodes, n) == nodes[n].live && KeysBetween(LiveOf(nodes, n), info[n].lo, info[n].hi - 1)
    ensures NodeFits(nodes, info, n)
  {
    hide KeysBetween, Strict;
  }

  /** The kids of n stay with n or go to m, in their ranges. */
  lemma SplitKidsHere(nodes: Views, nodes': Views, info: Info, pends: Pends, root: Ptr, n: Ptr, m: Ptr, h: nat, c: Ptr)
    requires Shape(nodes, info, pends, root) && Splitting(nodes, nodes', info, pends, root, n, m, h)
      && (c == n || c == m)
    requires n in info && info[n].level > 0
    ensures 0 < h < |LiveOf(nodes, n)| && KidsFit(nodes', InfoAfter(nodes, info, n, m, h), pends[n := m], c)
  {
    hide *;
    SplittingIn(nodes, nodes', info, pends, root, n, m, h);
    ShapeAt(nodes, info, pends, root, n);
    SplittingParts(nodes, nodes', info, pends, root, n, m, h);
    ShapeParts(nodes, info, pends, root);
    KidsParts(nodes, info, pends, n);
    NodeFitsParts(nodes, info, n);
    var info', pends' := InfoAfter(nodes, info, n, m, h), pends[n := m];
    var live, live' := LiveOf(nodes, n), LiveOf(nodes', c);
    var d := if c == n then 0 else h;
    Halves(live, h, d, live');
    SplitRanges(info, info', pends, root, n, m, live[h].key);
    forall i | 0 <= i < |live'|
      ensures IsKid(nodes', info', pends', c, live'[i].tid, live'[i].key, KidHi(live', info'[c].hi, i))
    {
      HalfHi(live, h, d, live', info[n].hi, i);
      KidParent(nodes, info, pends, n, live[d + i].tid, live[d + i].key, KidHi(live, info[n].hi, d + i));
      KidMoves(nodes, nodes', info, pends, root, n, m, h, live[d + i].tid, live[d + i].key,
          KidHi(live, info[n].hi, d + i), d + i, c);
    }
    if c == n && live[0].key > info[n].lo {
      KidParent(nodes, info, pends, n, nodes[n].leftmost, info[n].lo, live[0].key);
      KidMoves(nodes, nodes', info, pends, root, n, m, h, nodes[n].leftmost, info[n].lo, live[0].key, -1, n);
    }
    KidsIs(nodes', info', pends', c, live');
  }

  /** Kid at position i (-1: leftmost) of n, after the split a kid of n or m. */
  lemma KidMoves(nodes: Views, nodes': Views, info: Info, pends: Pends, root: Ptr, n: Ptr, m: Ptr, h: nat, c: Ptr,
                 lo: int, hi: int, i: int, to: Ptr)
    requires Shape(nodes, info, pends, root) && Splitting(nodes, nodes', info, pends, root, n, m, h) && n in info
      && info[n].level > 0
    requires IsKid(nodes, info, pends, n, c, lo, hi)
    requires -1 <= i < |LiveOf(nodes, n)| && 0 < h < |LiveOf(nodes, n)| && to == (if i < h then n else m)
    requires if i == -1 then lo < LiveOf(nodes, n)[0].key else LiveOf(nodes, n)[i] == Pair(lo, c)
    ensures IsKid(nodes', InfoAfter(nodes, info, n, m, h), pends[n := m], to, c, lo, hi)
  {
    hide *;
    SplittingIn(nodes, nodes', info, pends, root, n, m, h);
    ShapeAt(nodes, info, pends, root, n);
    ShapeParts(nodes, info, pends, root);
    SplittingParts(nodes, nodes', info, pends, root, n, m, h);
    NodeFitsParts(nodes, info, n);
    KidParent(nodes, info, pends, n, c, lo, hi);
    var live := LiveOf(nodes, n);
    SplitRanges(info, InfoAfter(nodes, info, n, m, h), pends, root, n, m, live[h].key);
    HangingNew(pends, n, m);
    assert c != n;
    if Moved(nodes, info, n, h, c) {
      MovedAt(nodes, info, pends, n, h, c, lo, i);
    } else if i >= h {
      MovedIs(nodes, info, n, h, c, i);
    }
    ParentAfterIs(nodes, info, n, m, h, c);
    IsKidIs(nodes', InfoAfter(nodes, info, n, m, h), pends[n := m], to, c, lo, hi);
  }

  lemma IsKidIs(nodes: Views, info: Info, pends: Pends, n: Ptr, c: Ptr, lo: int, hi: int)
    requires n in info && c in nodes && c in info && !Hanging(pends, c) && info[c].level + 1 == info[n].level
      && info[c].lo == lo
    requires ShownHi(info, pends, c) == hi && nodes[c].parent == n
    ensures IsKid(nodes, info, pends, n, c, lo, hi)
  {
    hide Hanging, ShownHi;
  }

  lemma ParentAfterIs(nodes: Views, info: Info, n: Ptr, m: Ptr, h: nat, c: Ptr)
    requires c in nodes
    ensures ParentAfter(nodes, info, n, m, h, c) == if Moved(nodes, info, n, h, c) then m else nodes[c].parent
  {
    hide Moved;
  }

  lemma MovedIs(nodes: Views, info: Info, n: Ptr, h: nat, c: Ptr, i: int)
    requires h <= i < |LiveOf(nodes, n)| && LiveOf(nodes, n)[i].tid == c && n in info && info[n].level > 0
    ensures Moved(nodes, info, n, h, c)
  {
    hide LiveOf;
  }

  /** A kid that moves is listed in the upper half only. */
  lemma MovedAt(nodes: Views, info: Info, pends: Pends, n: Ptr, h: nat, c: Ptr, lo: int, i: int)
    requires Moved(nodes, info, n, h, c) && KidsFit(nodes, info, pends, n) && Strict(LiveOf(nodes, n))
      && 0 < h < |LiveOf(nodes, n)|
    requires c in info && info[c].lo == lo && -1 <= i < |LiveOf(nodes, n)|
    requires if i == -1 then lo < LiveOf(nodes, n)[0].key else LiveOf(nodes, n)[i] == Pair(lo, c)
    ensures i >= h
  {
    hide LiveOf, ShownHi, Hanging;
    var live := LiveOf(nodes, n);
    var j :| h <= j < |live| && live[j].tid == c;
    assert IsKid(nodes, info, pends, n, live[j].tid, live[j].key, KidHi(live, info[n].hi, j));
  }

  /** Kids of other nodes are not affected. */
  lemma SplitKidsElsewhere(nodes: Views, nodes': Views, info: Info, pends: Pends, root: Ptr, n: Ptr, m: Ptr, h: nat,
                           c: Ptr)
    requires Shape(nodes, info, pends, root) && Splitting(nodes, nodes', info, pends, root, n, m, h)
    requires c in nodes && c != n && n in info && KidsFit(nodes, info, pends, c)
    ensures 0 < h < |LiveOf(nodes, n)| && KidsFit(nodes', InfoAfter(nodes, info, n, m, h), pends[n := m], c)
  {
    hide *;
    SplittingIn(nodes, nodes', info, pends, root, n, m, h);
    ShapeAt(nodes, info, pends, root, n);
    ShapeParts(nodes, info, pends, root);
    SplittingParts(nodes, nodes', info, pends, root, n, m, h);
    KidsParts(nodes, info, pends, c);
    SameLive(nodes, nodes', c);
    var info', pends' := InfoAfter(nodes, info, n, m, h), pends[n := m];
    var live := LiveOf(nodes, c);
    forall i | 0 <= i < |live|
      ensures IsKid(nodes', info', pends', c, live[i].tid, live[i].key, KidHi(live, info'[c].hi, i))
    {
      KidElsewhere(nodes, nodes', info, pends, root, n, m, h, c, live[i].tid, live[i].key, KidHi(live, info[c].hi, i));
    }
    if live[0].key > info[c].lo {
      KidElsewhere(nodes, nodes', info, pends, root, n, m, h, c, nodes[c].leftmost, info[c].lo, live[0].key);
    }
    KidsIs(nodes', info', pends', c, live);
  }

  lemma KidElsewhere(nodes: Views, nodes': Views, info: Info, pends: Pends, root: Ptr, n: Ptr, m: Ptr, h: nat, q: Ptr,
                     c: Ptr, lo: int, hi: int)
    requires Shape(nodes, info, pends, root) && Splitting(nodes, nodes', info, pends, root, n, m, h)
    requires q in nodes && q != n && n in info && IsKid(nodes, info, pends, q, c, lo, hi)
    ensures 0 < h < |LiveOf(nodes, n)| && IsKid(nodes', InfoAfter(nodes, info, n, m, h), pends[n := m], q, c, lo, hi)
  {
    hide *;
    SplittingIn(nodes, nodes', info, pends, root, n, m, h);
    ShapeAt(nodes, info, pends, root, n);
    ShapeParts(nodes, info, pends, root);
    SplittingParts(nodes, nodes', info, pends, root, n, m, h);
    KidParent(nodes, info, pends, q, c, lo, hi);
    var live := LiveOf(nodes, n);
    SplitRanges(info, InfoAfter(nodes, info, n, m, h), pends, root, n, m, live[h].key);
    HangingNew(pends, n, m);
    ParentAfterIs(nodes, info, n, m, h, c);
    if Moved(nodes, info, n, h, c) { MovedParent(nodes, info, pends, n, h, c); }
    IsKidIs(nodes', InfoAfter(nodes, info, n, m, h), pends[n := m], q, c, lo, hi);
  }

  lemma MovedParent(nodes: Views, info: Info, pends: Pends, n: Ptr, h: nat, c: Ptr)
    requires Moved(nodes, info, n, h, c) && n in info && (info[n].level > 0 ==> KidsFit(nodes, info, pends, n))
    ensures c in nodes && nodes[c].parent == n && c in info && info[c].level + 1 == info[n].level
    ensures exists i :: h <= i < |LiveOf(nodes, n)| && LiveOf(nodes, n)[i] == Pair(info[c].lo, c)
  {
    hide LiveOf, ShownHi, Hanging;
    var live := LiveOf(nodes, n);
    var j :| h <= j < |live| && live[j].tid == c;
    assert IsKid(nodes, info, pends, n, live[j].tid, live[j].key, KidHi(live, info[n].hi, j));
  }

  lemma SplitParentFits(nodes: Views, nodes': Views, info: Info, pends: Pends, root: Ptr, n: Ptr, m: Ptr, h: nat,
                        c: Ptr)
    requires Shape(nodes, info, pends, root) && Splitting(nodes, nodes', info, pends, root, n, m, h)
    requires c in nodes && n in info && ParentFits(nodes, info, pends, root, c)
    ensures 0 < h < |LiveOf(nodes, n)| && ParentFits(nodes', InfoAfter(nodes, info, n, m, h), pends[n := m], root, c)
  {
    hide *;
    SplittingIn(nodes, nodes', info, pends, root, n, m, h);
    ShapeAt(nodes, info, pends, root, n);
    ShapeParts(nodes, info, pends, root);
    SplittingParts(nodes, nodes', info, pends, root, n, m, h);
    HangingNew(pends, n, m);
    NodeFitsParts(nodes, info, n);
    var info', pends' := InfoAfter(nodes, info, n, m, h), pends[n := m];
    var live := LiveOf(nodes, n);
    if c == root || Hanging(pends, c) {
      ParentExempt(nodes', info', pends', root, c);
    } else {
      ParentParts(nodes, info, pends, root, c);
      var p := nodes[c].parent;
      ListsParts(nodes, info, p, c);
      if c == n {
        SameLive(nodes, nodes', p);
        ListsCopied(nodes, nodes', info, info', p, p, c);
      } else {
        ParentAfterIs(nodes, info, n, m, h, c);
        if Moved(nodes, info, n, h, c) {
          MovedParent(nodes, info, pends, n, h, c);
          MovedListed(nodes', info', live, h, m, c);
        } else if p == n {
          ShapeAt(nodes, info, pends, root, n);
          StayedListed(nodes, nodes', info, info', pends, n, h, c);
        } else {
          SameLive(nodes, nodes', p);
          ListsCopied(nodes, nodes', info, info', p, p, c);
        }
      }
      ParentIs(nodes', info', pends', root, c);
    }
  }

  lemma ListsCopied(nodes: Views, nodes': Views, info: Info, info': Info, p: Ptr, p': Ptr, c: Ptr)
    requires ListsKid(nodes, info, p, c) && p' in nodes' && p' in info' && c in info' && info'[c].lo == info[c].lo
      && info'[c].level == info[c].level
    requires LiveOf(nodes', p') == LiveOf(nodes, p) && nodes'[p'].leftmost == nodes[p].leftmost
      && info'[p'].lo == info[p].lo && info'[p'].level == info[p].level
    ensures ListsKid(nodes', info', p', c)
  {
    hide LiveOf;
  }

  lemma MovedListed(nodes': Views, info': Info, live: seq<Pair>, h: nat, m: Ptr, c: Ptr)
    requires m in nodes' && m in info' && c in info' && info'[m].level == info'[c].level + 1 && 0 < h < |live|
      && LiveOf(nodes', m) == live[h..]
    requires exists i :: h <= i < |live| && live[i] == Pair(info'[c].lo, c)
    ensures ListsKid(nodes', info', m, c)
  {
    hide LiveOf;
    var i :| h <= i < |live| && live[i] == Pair(info'[c].lo, c);
    assert live[h..][i - h] == live[i];
  }

  lemma StayedListed(nodes: Views, nodes': Views, info: Info, info': Info, pends: Pends, n: Ptr, h: nat, c: Ptr)
    requires ListsKid(nodes, info, n, c) && n in nodes' && n in info' && c in info' && info'[c] == info[c]
      && info'[n].level == info[n].level && info'[n].lo == info[n].lo
    requires 0 < h < |LiveOf(nodes, n)| && LiveOf(nodes', n) == LiveOf(nodes, n)[..h]
      && nodes'[n].leftmost == nodes[n].leftmost
    requires !Moved(nodes, info, n, h, c)
    ensures ListsKid(nodes', info', n, c)
  {
    hide LiveOf;
    var live := LiveOf(nodes, n);
    if ListsAt(live, c, info[c].lo) {
      var i :| 0 <= i < |live| && live[i] == Pair(info[c].lo, c);
      assert i < h;
      assert live[..h][i] == live[i];
    }
  }

  // ---------------------------------------------------------------- a new root

  /** The root has been split into a and b: a new node r takes both. */
  lemma NewRoot(nodes: Views, nodes': Views, info: Info, a: Ptr, b: Ptr, r: Ptr, R: View)
    requires Shape(nodes, info, map[a := b], a) && r !in nodes && a in nodes && b in nodes && b in info && a in info
    requires Strict(R.live) && R.live == [Pair(info[b].lo, b)] && R.leftmost == a && !R.isLeaf
    requires nodes' == nodes[r := R][a := nodes[a].(parent := r)][b := nodes[b].(parent := r)]
    ensures Shape(nodes', info[r := Range(0, TOP, info[a].level + 1)], map[], r)
  {
    hide *;
    var pends: Pends := map[a := b];
    var info' := info[r := Range(0, TOP, info[a].level + 1)];
    ShapeParts(nodes, info, pends, a);
    PendsParts(info, pends, a);
    RootLevels(info, pends, a);
    ShapeAt(nodes, info, pends, a, a);
    ShapeAt(nodes, info, pends, a, b);
    NodeFitsParts(nodes, info, a);
    NodeFitsParts(nodes, info, b);
    NewRootRanges(info, info', a, b, r);
    LiveOfIs(nodes', r);
    var live := LiveOf(nodes', r);
    KeysOne(info[b].lo, b);
    NodeFitsIs(nodes', info', r);
    KidHiOne(live, TOP);
    IsKidHere(nodes', info', map[], r, b, info[b].lo, TOP);
    IsKidHere(nodes', info', map[], r, a, 0, info[b].lo);
    KidsIs(nodes', info', map[], r, live);
    forall c | c in nodes'
      ensures NodeFits(nodes', info', c)
      ensures info'[c].level > 0 ==> KidsFit(nodes', info', map[], c)
      ensures ParentFits(nodes', info', map[], r, c)
    {
      if c == r {
        ParentExempt(nodes', info', map[], r, c);
      } else {
        ShapeAt(nodes, info, pends, a, c);
        SameLive(nodes, nodes', c);
        NodeFitsParts(nodes, info, c);
        NodeFitsIs(nodes', info', c);
        if info[c].level > 0 { KidsUnderNewRoot(nodes, nodes', info, info', a, b, r, c); }
        if c == a {
          ListedFirst(nodes', info', r, a);
          ParentIs(nodes', info', map[], r, c);
        } else if c == b {
          ListedHere(nodes', info', map[], r, b, 0);
        } else {
          ParentUnderNewRoot(nodes, nodes', info, info', a, b, r, c);
        }
      }
    }
    ShapeIs(nodes', info', map[], r);
  }

  lemma ListedFirst(nodes: Views, info: Info, r: Ptr, a: Ptr)
    requires r in nodes && r in info && a in info && info[r].level == info[a].level + 1 && nodes[r].leftmost == a
      && info[a].lo == info[r].lo
    requires LiveOf(nodes, r) != [] && LiveOf(nodes, r)[0].key > info[r].lo
    ensures ListsKid(nodes, info, r, a)
  {
    hide LiveOf;
  }

  lemma KidsUnderNewRoot(nodes: Views, nodes': Views, info: Info, info': Info, a: Ptr, b: Ptr, r: Ptr, c: Ptr)
    requires KidsFit(nodes, info, map[a := b], c) && r !in nodes && a in nodes && b in nodes && c in nodes
      && info.Keys == nodes.Keys
    requires nodes'.Keys == nodes.Keys + {r}
    requires forall n :: n in nodes && n != a && n != b ==> nodes'[n] == nodes[n]
    requires LiveOf(nodes', c) == LiveOf(nodes, c) && nodes'[c].leftmost == nodes[c].leftmost
    requires info'.Keys == info.Keys + {r} && forall n :: n in info ==> info'[n] == info[n]
    requires forall n :: n in info ==> info[n].level <= info[a].level
    requires forall n :: n in info && n != a ==> ShownHi(info', map[], n) == ShownHi(info, map[a := b], n)
    ensures KidsFit(nodes', info', map[], c)
  {
    hide *;
    var pends: Pends := map[a := b];
    KidsParts(nodes, info, pends, c);
    var live := LiveOf(nodes, c);
    forall i | 0 <= i < |live|
      ensures IsKid(nodes', info', map[], c, live[i].tid, live[i].key, KidHi(live, info'[c].hi, i))
    {
      KidUnderNewRoot(nodes, nodes', info, info', a, b, r, c, live[i].tid, live[i].key, KidHi(live, info[c].hi, i));
    }
    if live[0].key > info[c].lo {
      KidUnderNewRoot(nodes, nodes', info, info', a, b, r, c, nodes[c].leftmost, info[c].lo, live[0].key);
    }
    KidsIs(nodes', info', map[], c, live);
  }

  lemma KidUnderNewRoot(nodes: Views, nodes': Views, info: Info, info': Info, a: Ptr, b: Ptr, r: Ptr, q: Ptr, c: Ptr,
                        lo: int, hi: int)
    requires IsKid(nodes, info, map[a := b], q, c, lo, hi) && r !in nodes && info.Keys == nodes.Keys && a in nodes
    requires nodes'.Keys == nodes.Keys + {r}
    requires forall n :: n in nodes && n != a && n != b ==> nodes'[n] == nodes[n]
    requires info'.Keys == info.Keys + {r} && forall n :: n in info ==> info'[n] == info[n]
    requires forall n :: n in info ==> info[n].level <= info[a].level
    requires forall n :: n in info && n != a ==> ShownHi(info', map[], n) == ShownHi(info, map[a := b], n)
    ensures IsKid(nodes', info', map[], q, c, lo, hi)
  {
    hide ShownHi;
    assert Hanging(map[a := b], b) by { assert map[a := b][a] == b; }
    assert c != b && c != a;
    assert !Hanging(map[], c);
  }

  lemma ParentUnderNewRoot(nodes: Views, nodes': Views, info: Info, info': Info, a: Ptr, b: Ptr, r: Ptr, c: Ptr)
    requires ParentFits(nodes, info, map[a := b], a, c) && c in nodes && c != a && c != b && r !in nodes
      && info.Keys == nodes.Keys
    requires nodes'.Keys == nodes.Keys + {r} && a in nodes && b in nodes
    requires nodes'[c] == nodes[c]
    requires forall n :: n in nodes ==> nodes'[n].live == nodes[n].live && nodes'[n].leftmost == nodes[n].leftmost
    requires info'.Keys == info.Keys + {r} && forall n :: n in info ==> info'[n] == info[n]
    ensures ParentFits(nodes', info', map[], r, c)
  {
    hide *;
    NotHanging(a, b, c);
    ParentParts(nodes, info, map[a := b], a, c);
    var p := nodes[c].parent;
    ListsParts(nodes, info, p, c);
    SameLive(nodes, nodes', p);
    ListsCopied(nodes, nodes', info, info', p, p, c);
    ParentIs(nodes', info', map[], r, c);
  }

  // ---------------------------------------------------------------- a leaf changes

  /** Other entries in one leaf, within its range. */
  lemma LeafChanged(nodes: Views, nodes': Views, info: Info, pends: Pends, root: Ptr, n: Ptr)
    requires Shape(nodes, info, pends, root) && n in nodes && n in info && info[n].level == 0
    requires n in nodes' && nodes' == nodes[n := nodes'[n]]
      && nodes'[n] == nodes[n].(live := nodes'[n].live, leftmost := nodes'[n].leftmost)
    requires Strict(nodes'[n].live) && KeysBetween(nodes'[n].live, info[n].lo, info[n].hi - 1)
    ensures Shape(nodes', info, pends, root)
  {
    hide *;
    ShapeParts(nodes, info, pends, root);
    ShapeAt(nodes, info, pends, root, n);
    NodeFitsParts(nodes, info, n);
    LiveOfIs(nodes', n);
    forall c | c in nodes'
      ensures NodeFits(nodes', info, c)
      ensures info[c].level > 0 ==> KidsFit(nodes', info, pends, c)
      ensures ParentFits(nodes', info, pends, root, c)
    {
      ShapeAt(nodes, info, pends, root, c);
      NodeFitsParts(nodes, info, c);
      if c != n { SameLive(nodes, nodes', c); }
      NodeFitsIs(nodes', info, c);
      if info[c].level > 0 { KidsOverLeaf(nodes, nodes', info, pends, n, c); }
      ParentOverLeaf(nodes, nodes', info, pends, root, n, c);
    }
    ShapeIs(nodes', info, pends, root);
  }

  lemma KidsOverLeaf(nodes: Views, nodes': Views, info: Info, pends: Pends, n: Ptr, c: Ptr)
    requires KidsFit(nodes, info, pends, c) && c != n && n in nodes && n in nodes' && nodes'.Keys == nodes.Keys
    requires forall x :: x in nodes && x != n ==> nodes'[x] == nodes[x]
    requires nodes'[n].parent == nodes[n].parent
    ensures KidsFit(nodes', info, pends, c)
  {
    hide ShownHi, KidHi, Hanging;
    SameLive(nodes, nodes', c);
    hide LiveOf;
    forall x, lo, hi | IsKid(nodes, info, pends, c, x, lo, hi) ensures IsKid(nodes', info, pends, c, x, lo, hi) {}
  }

  lemma ParentOverLeaf(nodes: Views, nodes': Views, info: Info, pends: Pends, root: Ptr, n: Ptr, c: Ptr)
    requires ParentFits(nodes, info, pends, root, c) && c in nodes && n in nodes && nodes'.Keys == nodes.Keys
      && n in info && info[n].level == 0
    requires forall x :: x in nodes && x != n ==> nodes'[x] == nodes[x]
    requires nodes'[n].parent == nodes[n].parent
    ensures ParentFits(nodes', info, pends, root, c)
  {
    hide *;
    if c == root || Hanging(pends, c) {
      ParentExempt(nodes', info, pends, root, c);
    } else {
      ParentParts(nodes, info, pends, root, c);
      var p := nodes[c].parent;
      ListsParts(nodes, info, p, c);
      SameLive(nodes, nodes', p);
      ListsCopied(nodes, nodes', info, info, p, p, c);
      ParentIs(nodes', info, pends, root, c);
    }
  }

  // ---------------------------------------------------------------- agreement with the map

  /** Nodes keep their live entries and ranges. */
  lemma AgreeFrame(nodes: Views, nodes': Views, info: Info, info': Info, abs: map<int, int>)
    requires Agree(nodes, info, abs)
    requires forall n :: n in nodes' && n in info' && info'[n].level == 0 ==>
      n in nodes && n in info && info'[n] == info[n] && LiveOf(nodes', n) == LiveOf(nodes, n)
    ensures Agree(nodes', info', abs)
  {
    hide LiveOf, LeafAgrees;
  }

  /** One leaf takes a new binding, loses one, or rebinds a key. */
  lemma AgreeChanged(nodes: Views, nodes': Views, info: Info, n: Ptr, abs: map<int, int>, abs': map<int, int>)
    requires Agree(nodes, info, abs) && Apart(info) && n in nodes && n in info && info[n].level == 0
      && nodes'.Keys == nodes.Keys
    requires forall c :: c in nodes && c != n ==> LiveOf(nodes', c) == LiveOf(nodes, c)
    requires forall c :: c in nodes && c in info && c != n ==> KeysBetween(LiveOf(nodes, c), info[c].lo, info[c].hi - 1)
    requires LeafAgrees(LiveOf(nodes', n), info[n].lo, info[n].hi, abs')
    requires forall k :: !(info[n].lo <= k < info[n].hi) ==>
      (k in abs' <==> k in abs) && (k in abs ==> abs'[k] == abs[k])
    ensures Agree(nodes', info, abs')
  {
    hide LiveOf;
    forall c | c in nodes' && c in info && info[c].level == 0 && c != n
      ensures LeafAgrees(LiveOf(nodes', c), info[c].lo, info[c].hi, abs')
    {
      assert LeafAgrees(LiveOf(nodes, c), info[c].lo, info[c].hi, abs);
    }
  }

  /** A leaf that is split shares its part of the map. */
  lemma AgreeSplit(nodes: Views, nodes': Views, info: Info, pends: Pends, root: Ptr, n: Ptr, m: Ptr, h: nat,
                   abs: map<int, int>)
    requires Shape(nodes, info, pends, root) && Splitting(nodes, nodes', info, pends, root, n, m, h)
      && Agree(nodes, info, abs)
    ensures n in info && 0 < h < |LiveOf(nodes, n)| && Agree(nodes', InfoAfter(nodes, info, n, m, h), abs)
  {
    hide *;
    SplittingIn(nodes, nodes', info, pends, root, n, m, h);
    ShapeAt(nodes, info, pends, root, n);
    SplittingParts(nodes, nodes', info, pends, root, n, m, h);
    NodeFitsParts(nodes, info, n);
    var info' := InfoAfter(nodes, info, n, m, h);
    forall c | c in nodes' && c in info' && info'[c].level == 0
      ensures LeafAgrees(LiveOf(nodes', c), info'[c].lo, info'[c].hi, abs)
    {
      if c == n || c == m {
        AgreeAt(nodes, info, n, abs);
        HalvesAgree(LiveOf(nodes, n), h, info[n].lo, info[n].hi, abs);
      } else {
        AgreeAt(nodes, info, c, abs);
        SameLive(nodes, nodes', c);
      }
    }
    AgreeIs(nodes', info', abs);
  }

  lemma AgreeAt(nodes: Views, info: Info, n: Ptr, abs: map<int, int>)
    requires Agree(nodes, info, abs) && n in nodes && n in info && info[n].level == 0
    ensures LeafAgrees(LiveOf(nodes, n), info[n].lo, info[n].hi, abs)
  {
    hide LiveOf, LeafAgrees;
  }

  lemma AgreeIs(nodes: Views, info: Info, abs: map<int, int>)
    requires forall n ::
      n in nodes && n in info && info[n].level == 0 ==> LeafAgrees(LiveOf(nodes, n), info[n].lo, info[n].hi, abs)
    ensures Agree(nodes, info, abs)
  {
    hide LiveOf, LeafAgrees;
  }

  // ---------------------------------------------------------------- descending

  /** n covers the key. */
  ghost predicate Covers(nodes: Views, info: Info, n: Ptr, key: int) {
    n in nodes && n in info && info[n].lo <= key < info[n].hi
  }

  /** The kid a search follows: the last one whose key is not larger, or the leftmost. */
  lemma DescendTo(nodes: Views, info: Info, root: Ptr, n: Ptr, key: int)
    requires Shape(nodes, info, map[], root) && Covers(nodes, info, n, key) && info[n].level > 0
    ensures Strict(nodes[n].live) && LiveOf(nodes, n) == nodes[n].live && LiveOf(nodes, n) != []
    ensures var live := LiveOf(nodes, n); var l := LowerBound(live, key);
      var c := if l < |live| && live[l].key == key then live[l].tid else if l > 0 then live[l - 1].tid
          else nodes[n].leftmost;
      Covers(nodes, info, c, key) && info[c].level + 1 == info[n].level
  {
    hide *;
    CoversParts(nodes, info, n, key);
    ShapeAt(nodes, info, map[], root, n);
    NodeFitsParts(nodes, info, n);
    KidsParts(nodes, info, map[], n);
    var live := LiveOf(nodes, n);
    var l := LowerBound(live, key);
    if l < |live| && live[l].key == key {
      KidParent(nodes, info, map[], n, live[l].tid, live[l].key, KidHi(live, info[n].hi, l));
      KidCovers(live, info[n].lo, info[n].hi, l, key);
      NothingPends(info, live[l].tid);
      CoversIs(nodes, info, live[l].tid, key);
    } else if l > 0 {
      KidParent(nodes, info, map[], n, live[l - 1].tid, live[l - 1].key, KidHi(live, info[n].hi, l - 1));
      KidCovers(live, info[n].lo, info[n].hi, l - 1, key);
      NothingPends(info, live[l - 1].tid);
      CoversIs(nodes, info, live[l - 1].tid, key);
    } else {
      KidParent(nodes, info, map[], n, nodes[n].leftmost, info[n].lo, live[0].key);
      NothingPends(info, nodes[n].leftmost);
      CoversIs(nodes, info, nodes[n].leftmost, key);
    }
  }

  lemma CoversParts(nodes: Views, info: Info, n: Ptr, key: int)
    requires Covers(nodes, info, n, key)
    ensures n in nodes && n in info && info[n].lo <= key < info[n].hi
  {
  }

  lemma CoversIs(nodes: Views, info: Info, n: Ptr, key: int)
    requires n in nodes && n in info && info[n].lo <= key < info[n].hi
    ensures Covers(nodes, info, n, key)
  {
  }

  /** Some leaf below a node covers the key. */
  lemma {:induction false} CoveringLeaf(nodes: Views, info: Info, root: Ptr, n: Ptr, key: int) returns (leaf: Ptr)
    requires Shape(nodes, info, map[], root) && Covers(nodes, info, n, key)
    ensures Covers(nodes, info, leaf, key) && leaf in info && info[leaf].level == 0
    decreases if n in info then info[n].level else 0
  {
    hide *;
    CoversParts(nodes, info, n, key);
    if info[n].level == 0 {
      leaf := n;
    } else {
      DescendTo(nodes, info, root, n, key);
      var live := LiveOf(nodes, n);
      var l := LowerBound(live, key);
      var c := if l < |live| && live[l].key == key then live[l].tid else if l > 0 then live[l - 1].tid
          else nodes[n].leftmost;
      CoversParts(nodes, info, c, key);
      leaf := CoveringLeaf(nodes, info, root, c, key);
    }
  }

  lemma RootCovers(nodes: Views, info: Info, root: Ptr, key: int)
    requires Shape(nodes, info, map[], root) && 0 <= key < TOP
    ensures Covers(nodes, info, root, key)
  {
    hide NodeFits, KidsFit, ParentFits, Apart, PendsFit;
    ShapeParts(nodes, info, map[], root);
  }

  /** The leaf that covers a key decides it. */
  lemma LeafDecides(nodes: Views, info: Info, root: Ptr, abs: map<int, int>, n: Ptr, key: int)
    requires Shape(nodes, info, map[], root) && Agree(nodes, info, abs) && Covers(nodes, info, n, key)
      && info[n].level == 0
    ensures Strict(nodes[n].live) && LiveOf(nodes, n) == nodes[n].live
      && KeysBetween(nodes[n].live, info[n].lo, info[n].hi - 1)
    ensures LeafAgrees(nodes[n].live, info[n].lo, info[n].hi, abs)
    ensures key in abs <==> HasKey(nodes[n].live, key)
  {
    hide Strict;
    ShapeAt(nodes, info, map[], root, n);
    NodeFitsParts(nodes, info, n);
    AgreeAt(nodes, info, n, abs);
    hide LiveOf, Shape, Agree;
  }

  // ---------------------------------------------------------------- one binding in one leaf

  /** One leaf gets other entries, and the map follows. */
  lemma LeafUpdated(nodes: Views, nodes': Views, info: Info, root: Ptr, n: Ptr, abs: map<int, int>, abs': map<int, int>)
    requires Shape(nodes, info, map[], root) && Agree(nodes, info, abs) && n in nodes && n in info && info[n].level == 0
    requires n in nodes' && nodes' == nodes[n := nodes'[n]] && nodes'[n] == nodes[n].(live := nodes'[n].live)
    requires Strict(nodes'[n].live) && KeysBetween(nodes'[n].live, info[n].lo, info[n].hi - 1)
    requires LeafAgrees(nodes'[n].live, info[n].lo, info[n].hi, abs')
    requires forall k :: !(info[n].lo <= k < info[n].hi) ==>
      (k in abs' <==> k in abs) && (k in abs ==> abs'[k] == abs[k])
    ensures Shape(nodes', info, map[], root) && Agree(nodes', info, abs')
  {
    hide *;
    ShapeParts(nodes, info, map[], root);
    LeafChanged(nodes, nodes', info, map[], root, n);
    LiveOfIs(nodes', n);
    forall c | c in nodes ensures c != n ==> LiveOf(nodes', c) == LiveOf(nodes, c) {
      if c != n { SameLive(nodes, nodes', c); }
    }
    forall c | c in nodes && c in info ensures KeysBetween(LiveOf(nodes, c), info[c].lo, info[c].hi - 1) {
      ShapeAt(nodes, info, map[], root, c);
      NodeFitsParts(nodes, info, c);
    }
    AgreeChanged(nodes, nodes', info, n, abs, abs');
  }

  // ---------------------------------------------------------------- kids and their level

  lemma KidsInNodes(nodes: Views, info: Info, pends: Pends, n: Ptr)
    requires KidsFit(nodes, info, pends, n)
    ensures n in info
    ensures var live := LiveOf(nodes, n);
      forall i :: 0 <= i < |live| ==>
          live[i].tid in nodes && live[i].tid in info && live[i].tid != n && info[live[i].tid].level < info[n].level
  {
    hide LiveOf, ShownHi, Hanging;
    var live := LiveOf(nodes, n);
    forall i | 0 <= i < |live| ensures live[i].tid in nodes && live[i].tid in info && live[i].tid != n
        && info[live[i].tid].level < info[n].level {
      assert IsKid(nodes, info, pends, n, live[i].tid, live[i].key, KidHi(live, info[n].hi, i));
    }
  }

  /** No node covers keys beyond those of the root. */
  lemma {:induction false} InsideTop(nodes: Views, info: Info, root: Ptr, n: Ptr)
    requires Shape(nodes, info, map[], root) && n in nodes
    ensures n in info && 0 <= info[n].lo && info[n].hi <= TOP
    decreases if root in info && n in info && info[n].level <= info[root].level then info[root].level - info[n].level
      else 0
  {
    hide *;
    ShapeParts(nodes, info, map[], root);
    RootTop(info, map[], root);
    NothingPends(info, n);
    if n == root {
      RootCovered(info, root);
    } else {
      ShapeAt(nodes, info, map[], root, n);
      NothingHangs(n);
      ParentParts(nodes, info, map[], root, n);
      var p := nodes[n].parent;
      ListsParts(nodes, info, p, n);
      ShapeAt(nodes, info, map[], root, p);
      NodeFitsParts(nodes, info, p);
      KidsParts(nodes, info, map[], p);
      InsideTop(nodes, info, root, p);
      var live := LiveOf(nodes, p);
      if i :| 0 <= i < |live| && live[i] == Pair(info[n].lo, n) {
        KidParent(nodes, info, map[], p, live[i].tid, live[i].key, KidHi(live, info[p].hi, i));
        KidHiInside(live, info[p].lo, info[p].hi, i);
      } else {
        KidParent(nodes, info, map[], p, nodes[p].leftmost, info[p].lo, live[0].key);
        KidHiInside(live, info[p].lo, info[p].hi, 0);
      }
    }
  }

  lemma RootCovered(info: Info, root: Ptr)
    requires RootFits(info, map[], root)
    ensures root in info && info[root].lo == 0 && info[root].hi == TOP
  {
  }

  lemma KidHiInside(live: seq<Pair>, lo: int, hi: int, i: nat)
    requires KeysBetween(live, lo, hi - 1) && i < |live|
    ensures lo <= live[i].key < hi && KidHi(live, hi, i) <= hi
  {
  }

  // ---------------------------------------------------------------- what is never read

  /** Nobody reads the parent of the root. */
  lemma RootParentFree(nodes: Views, nodes': Views, info: Info, root: Ptr)
    requires Shape(nodes, info, map[], root) && nodes'.Keys == nodes.Keys
    requires forall c :: c in nodes ==>
      nodes'[c] == nodes[c].(parent := nodes'[c].parent) && (c != root ==> nodes'[c] == nodes[c])
    ensures Shape(nodes', info, map[], root)
  {
    hide *;
    ShapeParts(nodes, info, map[], root);
    RootTop(info, map[], root);
    forall n | n in nodes'
      ensures NodeFits(nodes', info, n)
      ensures info[n].level > 0 ==> KidsFit(nodes', info, map[], n)
      ensures ParentFits(nodes', info, map[], root, n)
    {
      ShapeAt(nodes, info, map[], root, n);
      NodeFitsParts(nodes, info, n);
      SameLive(nodes, nodes', n);
      NodeFitsIs(nodes', info, n);
      if info[n].level > 0 { KidsReread(nodes, nodes', info, root, n); }
      if n == root {
        ParentExempt(nodes', info, map[], root, n);
      } else {
        NothingHangs(n);
        ParentParts(nodes, info, map[], root, n);
        var p := nodes[n].parent;
        ListsParts(nodes, info, p, n);
        SameLive(nodes, nodes', p);
        ListsCopied(nodes, nodes', info, info, p, p, n);
        ParentIs(nodes', info, map[], root, n);
      }
    }
    ShapeIs(nodes', info, map[], root);
  }

  lemma KidsReread(nodes: Views, nodes': Views, info: Info, root: Ptr, n: Ptr)
    requires KidsFit(nodes, info, map[], n) && nodes'.Keys == nodes.Keys && root in info
      && (forall c :: c in info ==> info[c].level <= info[root].level)
    requires forall c :: c in nodes ==>
      nodes'[c] == nodes[c].(parent := nodes'[c].parent) && (c != root ==> nodes'[c] == nodes[c])
    ensures KidsFit(nodes', info, map[], n)
  {
    hide ShownHi, KidHi, Hanging;
    forall c, lo, hi | IsKid(nodes, info, map[], n, c, lo, hi) ensures IsKid(nodes', info, map[], n, c, lo, hi) {
      assert c != root;
    }
  }
}
