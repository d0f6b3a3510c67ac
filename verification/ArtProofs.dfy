/** What the single steps of insertion and deletion in an adaptive radix tree establish: facts
    about one node, one key, or one change of memory, from which the operations are composed. */
module ArtProofs {
  import opened SetFacts
  import opened ArtNode
  import opened ArtShape
  import opened ArtTree

  /** No stored key is a proper prefix of `key`, nor the other way round. */
  ghost predicate PrefixFree(es: set<Entry>, key: Key) {
    forall e :: e in es && e.0 != key ==> !(key <= e.0) && !(e.0 <= key)
  }

  lemma PrefixTransitive(a: Key, b: Key, c: Key)
    requires a <= b && b <= c
    ensures a <= c && (|b| < |c| ==> a != c)
  {
  }

  /** A key whose byte string ends on the path to a node would be a prefix of the keys below. */
  lemma RunsOn(t: Tree, path: Key, key: Key)
    requires t.Inner? && Shaped(t, path) && PrefixFree(Entries(t), key)
    ensures !(key <= path + t.prefix)
  {
    var e := NotEmpty(t, path);
    KeysFollowPath(t, path, e);
    if key <= path + t.prefix {
      PrefixTransitive(key, path + t.prefix, e.0);
      assert false;
    }
  }

  lemma PrefixFreeKid(t: Tree, b: Byte, key: Key)
    requires t.Inner? && b in t.kids && PrefixFree(Entries(t), key)
    ensures PrefixFree(Entries(t.kids[b]), key)
  {
    assert forall e :: e in Entries(t.kids[b]) ==> e in Entries(t);
  }

  lemma NoKids(n: Node)
    requires Sized(n) && n.kind.Kind4? && n.numChildren == 0
    ensures LayoutOk(n) && Kids(n) == map[]
  {
  }

  /** What every deletion below a subtree guarantees when it removed a leaf cell l. */
  ghost predicate DropDone(mem: map<Ptr, Cell>, brk: Ptr, t: Tree, mem': map<Ptr, Cell>, brk': Ptr, t': Tree, path: Key,
                           key: Key, l: Ptr) {
    && Stands(mem', t', path)
    && Step(mem, brk, t, mem', brk', t', {l})
    && Entries(t') == Without(Entries(t), key)
    && l in mem' && mem'[l].LeafCell? && (key, mem'[l].value) in Entries(t)
  }

  /** The state in which `art_delete` frees the leaf that was taken out of the tree. */
  ghost predicate RemovedFrom(mem: map<Ptr, Cell>, brk: Ptr, t: Tree, key: Key, l: Ptr, t': Option<Tree>,
                              mem1: map<Ptr, Cell>, brk1: Ptr) {
    if t.Leaf? then t'.None? && mem1 == mem && l == t.at && t.key == key
    else t'.Some? && DropDone(mem, brk, t, mem1, brk1, t'.value, [], key, l)
  }

  lemma RemovedSome(mem: map<Ptr, Cell>, brk: Ptr, t: Tree, key: Key, l: Ptr, t': Option<Tree>, mem1: map<Ptr, Cell>,
                    brk1: Ptr)
    requires RemovedFrom(mem, brk, t, key, l, t', mem1, brk1) && t'.Some?
    ensures DropDone(mem, brk, t, mem1, brk1, t'.value, [], key, l)
  {
    hide DropDone;
  }

  lemma StepKeeps(mem: map<Ptr, Cell>, brk: Ptr, t: Tree, mem': map<Ptr, Cell>, brk': Ptr, t': Tree, l: Ptr)
    requires Step(mem, brk, t, mem', brk', t', {l})
    ensures l in mem' && l in Cells(t) && l !in Cells(t')
    ensures mem'.Keys == (mem.Keys - Cells(t)) + Cells(t') + {l}
  {
    hide Cells;
    assert l in {l};
  }

  lemma DropParts(mem: map<Ptr, Cell>, brk: Ptr, t: Tree, mem': map<Ptr, Cell>, brk': Ptr, t': Tree, path: Key,
                  key: Key, l: Ptr)
    requires DropDone(mem, brk, t, mem', brk', t', path, key, l)
    ensures Holds(mem', t') && Apart(t') && Shaped(t', path) && t'.at != NULL
    ensures Step(mem, brk, t, mem', brk', t', {l})
    ensures Entries(t') == Without(Entries(t), key)
    ensures l in mem' && mem'[l].LeafCell? && (key, mem'[l].value) in Entries(t)
  {
    hide Apart, Shaped, Step, Entries, Without, NodeHolds;
  }

  lemma RemovedParts(mem: map<Ptr, Cell>, brk: Ptr, t: Tree, key: Key, l: Ptr, t': Option<Tree>, mem1: map<Ptr, Cell>,
                     brk1: Ptr)
    requires RemovedFrom(mem, brk, t, key, l, t', mem1, brk1) && mem.Keys == Cells(t)
    ensures t'.None? ==> mem1 - {l} == map[] && Without(Entries(t), key) == {} && |Without(Entries(t), key)| == 0
    ensures t'.Some? ==> var u := t'.value;
      && Holds(mem1, u) && Apart(u) && Shaped(u, []) && Entries(u) == Without(Entries(t), key)
      && (mem1 - {l}).Keys == Cells(u) && l !in Cells(u)
  {
    if t'.Some? {
      hide *;
      RemovedSome(mem, brk, t, key, l, t', mem1, brk1);
      DropParts(mem, brk, t, mem1, brk1, t'.value, [], key, l);
      StepKeeps(mem, brk, t, mem1, brk1, t'.value, l);
      assert (mem1 - {l}).Keys == Cells(t'.value);
    } else {
      assert Entries(t) == {(t.key, t.value)};
    }
  }

  /** The removed leaf can still be read before it is freed. */
  lemma RemovedLeaf(mem: map<Ptr, Cell>, brk: Ptr, t: Tree, key: Key, l: Ptr, t': Option<Tree>, mem1: map<Ptr, Cell>,
                    brk1: Ptr)
    requires Stands(mem, t, []) && t.at in mem
    requires t.Leaf? ==> mem1 == mem && t'.None? && l == t.at && t.key == key
    requires t.Inner? ==> t'.Some? && DropDone(mem, brk, t, mem1, brk1, t'.value, [], key, l)
    ensures RemovedFrom(mem, brk, t, key, l, t', mem1, brk1)
    ensures l in mem1 && mem1[l].LeafCell? && (key, mem1[l].value) in Entries(t) && HasKey(Entries(t), key)
  {
    if t.Inner? {
      DropParts(mem, brk, t, mem1, brk1, t'.value, [], key, l);
    }
  }

  /** The kid of t at byte c is the leaf cell l with this key. */
  ghost predicate IsLeafKid(t: Tree, path: Key, c: Byte, key: Key, l: Ptr) {
    && t.Inner? && c in t.kids && t.kids[c].Leaf? && t.kids[c].key == key && t.kids[c].at == l
    && path + t.prefix + [c] <= key
  }

  lemma LayoutOfNode(n: Node, t: Tree)
    requires t.Inner? && NodeHolds(n, t) && n.kind.Kind4?
    ensures NodeOk(n) && LayoutOk(n) && Sized(n) && IsList(n) && n.numChildren == |Kids(n)| && n.numChildren <= |n.keys|
    ensures Kids(n).Keys == t.kids.Keys
  {
    hide Kids;
  }

  lemma NodeParts(n: Node, t: Tree)
    requires t.Inner? && NodeHolds(n, t)
    ensures NodeOk(n) && LayoutOk(n) && Sized(n) && n.partialLen == |t.prefix|
    ensures Stored(n) == t.prefix[..Min(|t.prefix|, MAX_PREFIX_LEN)]
    ensures Kids(n).Keys == t.kids.Keys
    ensures forall b: Byte :: b in t.kids ==> Kids(n)[b] == t.kids[b].at
    ensures MinChildren(n.kind) <= |Kids(n)|
  {
    hide Kids, LayoutOk, Stored, Min;
    LayoutSized(n);
  }

  lemma FewerKids(m: map<Byte, Ptr>, c: Byte)
    requires c in m
    ensures |m - {c}| == |m| - 1 && m.Keys == (m - {c}).Keys + {c}
  {
    assert (m - {c}).Keys == m.Keys - {c};
  }

  lemma OneInList(r: Node)
    requires LayoutOk(r) && r.kind.Kind4? && |Kids(r)| == 1
    ensures Sized(r) && IsList(r) && ListOk(r) && r.numChildren == 1 && |r.keys| > 0 && |r.children| > 0
  {
    hide Kids;
  }

  lemma OnlyOne(s: set<Byte>, x: Byte)
    requires |s| == 1 && x in s
    ensures s == {x}
  {
    if s != {x} {
      var y :| y in s && y != x;
      SubsetSize({x, y}, s);
    }
  }

  lemma OneLeft(n: Node, r: Node, c: Byte, t: Tree)
    requires t.Inner? && NodeHolds(n, t) && n.kind.Kind4? && |Kids(n)| == 2 && c in t.kids
    requires Removed(n, r, c) && r.kind.Kind4?
    ensures Sized(r) && r.partialLen == |t.prefix| && Stored(r) == t.prefix[..Min(|t.prefix|, MAX_PREFIX_LEN)]
    ensures |r.keys| > 0 && |r.children| > 0
    ensures var x := r.keys[0]; x in t.kids && x != c && t.kids.Keys == {c, x} && r.children[0] == t.kids[x].at
  {
    hide *;
    NodeParts(n, t);
    RemovedFacts(n, r, c);
    FewerKids(Kids(n), c);
    OneInList(r);
    ListKid(r, 0);
    var x := r.keys[0];
    OnlyOne(Kids(r).Keys, x);
    assert Kids(n).Keys == {c, x};
  }

  lemma StoredBytes(n: Node, prefix: seq<Byte>)
    requires Sized(n) && n.partialLen == |prefix| && Stored(n) == prefix[..Min(|prefix|, MAX_PREFIX_LEN)]
    ensures forall i :: 0 <= i < |prefix| && i < MAX_PREFIX_LEN ==> n.partial[i] == prefix[i]
  {
    assert forall i :: 0 <= i < |prefix| && i < MAX_PREFIX_LEN ==> Stored(n)[i] == prefix[i];
  }

  lemma LeafKidFacts(t: Tree, path: Key, c: Byte, key: Key, l: Ptr)
    requires IsLeafKid(t, path, c, key, l)
    ensures t.Inner? && c in t.kids && t.kids[c].Leaf? && t.kids[c].key == key && t.kids[c].at == l
    ensures path + t.prefix + [c] <= key
  {
  }

  lemma LeafKidFound(t: Tree, path: Key, c: Byte, key: Key, l: Ptr)
    requires t.Inner? && c in t.kids && t.kids[c].Leaf? && t.kids[c].key == key && t.kids[c].at == l
    requires path + t.prefix + [c] <= t.kids[c].key
    ensures IsLeafKid(t, path, c, key, l)
  {
  }

  lemma TwoChildren(n: Node)
    requires NodeOk(n)
    ensures n.kind.Kind4? ==> (n.numChildren == 2 <==> |Kids(n)| == 2)
  {
    hide Kids;
  }

  lemma NotInKid(t: Tree, x: Byte)
    requires t.Inner? && Apart(t) && x in t.kids
    ensures t.at !in Cells(t.kids[x])
  {
  }

  lemma StandsParts(mem: map<Ptr, Cell>, t: Tree, path: Key)
    requires Stands(mem, t, path)
    ensures Holds(mem, t) && Apart(t) && Shaped(t, path) && t.at in mem && t.at != NULL
    ensures t.at in Cells(t)
  {
    hide NodeHolds, Apart, Shaped;
  }

  lemma KidStands(mem: map<Ptr, Cell>, t: Tree, path: Key, b: Byte)
    requires Stands(mem, t, path) && t.Inner? && b in t.kids
    ensures Stands(mem, t.kids[b], path + t.prefix + [b])
    ensures t.kids[b].at in mem && t.kids[b].at != NULL
    ensures Entries(t.kids[b]) <= Entries(t)
    ensures t.kids[b] < t
  {
    hide NodeHolds, Cells;
  }

  /** The kid under the collapsed node, its header rewritten. */
  lemma CollapsedNode(mem: map<Ptr, Cell>, brk: Ptr, t: Tree, path: Key, c: Byte, x: Byte, child2: Node,
                      mem': map<Ptr, Cell>, t': Tree)
    requires t.Inner? && Stands(mem, t, path) && c in t.kids && x in t.kids && x != c
    requires t.kids[x].Inner? && t' == Inner(t.kids[x].at, t.prefix + [x] + t.kids[x].prefix, t.kids[x].kids)
    requires NodeHolds(child2, t')
    requires mem' == mem[t.kids[x].at := NodeCell(child2)] - {t.at}
    ensures Holds(mem', t') && Apart(t') && Cells(t') == Cells(t.kids[x]) && Shaped(t', path)
    ensures Entries(t') == Entries(t.kids[x])
    ensures mem'.Keys == mem.Keys - {t.at} && forall p :: p in mem && p !in Cells(t) ==> mem'[p] == mem[p]
    ensures forall p :: p in mem && p != t.at && p !in Cells(t.kids[x]) ==> mem'[p] == mem[p]
  {
    hide *;
    var kid := t.kids[x];
    KidStands(mem, t, path, x);
    StandsParts(mem, t, path);
    StandsParts(mem, kid, path + t.prefix + [x]);
    KidCells(t, x);
    NotInKid(t, x);
    HeaderChangedHolds(mem, brk, kid, mem', child2, t');
    assert path + t.prefix + [x] + kid.prefix == path + (t.prefix + [x] + kid.prefix);
    MovePrefix(kid, t', path + t.prefix + [x], path);
  }

  lemma LeafOnLongerPath(t: Tree, path: Key)
    requires t.Leaf? && path <= t.key
    ensures Shaped(t, path)
  {
  }

  lemma LeafFacts(mem: map<Ptr, Cell>, t: Tree, path: Key)
    requires Stands(mem, t, path) && t.at in mem && mem[t.at].LeafCell?
    ensures t.Leaf? && mem[t.at] == LeafCell(t.key, t.value) && Entries(t) == {(t.key, t.value)}
    ensures t.at != NULL && Shaped(t, path) && path <= t.key
  {
  }

  lemma CollapsedLeaf(mem: map<Ptr, Cell>, brk: Ptr, t: Tree, path: Key, c: Byte, x: Byte, mem': map<Ptr, Cell>)
    requires t.Inner? && Stands(mem, t, path) && c in t.kids && x in t.kids && x != c
    requires t.kids[x].at in mem && mem[t.kids[x].at].LeafCell?
    requires mem' == mem - {t.at}
    ensures Holds(mem', t.kids[x]) && Apart(t.kids[x]) && Shaped(t.kids[x], path)
    ensures mem'.Keys == mem.Keys - {t.at} && forall p :: p in mem && p !in Cells(t) ==> mem'[p] == mem[p]
    ensures forall p :: p in mem && p != t.at && p !in Cells(t.kids[x]) ==> mem'[p] == mem[p]
  {
    hide *;
    var kid := t.kids[x];
    KidStands(mem, t, path, x);
    StandsParts(mem, t, path);
    StandsParts(mem, kid, path + t.prefix + [x]);
    KidCells(t, x);
    NotInKid(t, x);
    HoldsFrame(mem, mem', kid);
    LeafFacts(mem, kid, path + t.prefix + [x]);
    PrefixTransitive(path, path + t.prefix + [x], kid.key);
    LeafOnLongerPath(kid, path);
  }

  lemma OnlyKidEntries(t: Tree, b: Byte, c: Tree)
    requires t.Inner? && t.kids == map[b := c]
    ensures Entries(t) == Entries(c)
  {
    assert b in t.kids && t.kids[b] == c;
  }

  lemma LeafKidCell(mem: map<Ptr, Cell>, t: Tree, c: Byte)
    requires t.Inner? && c in t.kids && t.kids[c].Leaf? && Holds(mem, t)
    ensures t.kids[c].at in mem && mem[t.kids[c].at] == LeafCell(t.kids[c].key, t.kids[c].value)
    ensures (t.kids[c].key, t.kids[c].value) in Entries(t)
  {
    hide NodeHolds;
    assert (t.kids[c].key, t.kids[c].value) in Entries(t.kids[c]);
  }

  lemma AllDropped(mem: map<Ptr, Cell>, brk: Ptr, t: Tree, mem': map<Ptr, Cell>, brk': Ptr, t': Tree, path: Key,
                   key: Key, l: Ptr)
    requires Holds(mem', t') && Apart(t') && Shaped(t', path)
    requires Step(mem, brk, t, mem', brk', t', {l})
    requires Entries(t') == Without(Entries(t), key)
    requires l in mem' && mem'[l].LeafCell? && (key, mem'[l].value) in Entries(t)
    ensures DropDone(mem, brk, t, mem', brk', t', path, key, l)
  {
    hide Holds, Apart, Shaped, Step, Entries, Without;
  }

  lemma CollapseDone(mem: map<Ptr, Cell>, brk: Ptr, t: Tree, path: Key, key: Key, c: Byte, x: Byte, l: Ptr,
                     mem': map<Ptr, Cell>, t': Tree)
    requires Stands(mem, t, path) && (forall p :: p in mem ==> 0 < p < brk) && IsLeafKid(t, path, c, key, l)
    requires t.Inner? && c in t.kids && t.kids[c].Leaf? && t.kids[c].key == key && t.kids[c].at == l
    requires x in t.kids && x != c && t.kids.Keys == {c, x}
    requires Holds(mem', t') && Apart(t') && Shaped(t', path)
    requires Cells(t') == Cells(t.kids[x]) && Entries(t') == Entries(t.kids[x])
    requires mem'.Keys == mem.Keys - {t.at} && forall p :: p in mem && p !in Cells(t) ==> mem'[p] == mem[p]
    requires forall p :: p in mem && p != t.at && p !in Cells(t.kids[x]) ==> mem'[p] == mem[p]
    ensures DropDone(mem, brk, t, mem', brk, t', path, key, l)
    ensures forall p :: p in mem' ==> p < brk && 0 < p
  {
    hide *;
    StandsParts(mem, t, path);
    CollapseStep(mem, brk, t, c, x, mem', t');
    KidStands(mem, t, path, c);
    LeafKidCell(mem, t, c);
    var u := Inner(t.at, t.prefix, t.kids - {c});
    KidDropped(t, u, path, c);
    assert u.kids == map[x := t.kids[x]];
    OnlyKidEntries(u, x, t.kids[x]);
    AllDropped(mem, brk, t, mem', brk, t', path, key, l);
  }

  lemma NodeRewritten(mem: map<Ptr, Cell>, brk: Ptr, from: Ptr, r: Node, mem': map<Ptr, Cell>, to: Ptr)
    requires from in mem && from != NULL && to != NULL && (forall p :: p in mem ==> 0 < p < brk)
    requires (to == brk && mem' == (mem - {from})[to := NodeCell(r)])
          || (to == from && mem' == mem[from := NodeCell(r)])
    ensures Rewritten(mem, brk, from, mem', to, {}) && mem'[to] == NodeCell(r)
  {
  }

  lemma EnoughLeft(kind: Kind, count: nat, kind': Kind)
    requires MinChildren(kind) <= count && !(kind.Kind4? && count == 2) && kind' == ShrinksTo(kind, count)
    ensures 2 <= MinChildren(kind') <= count - 1
  {
  }

  lemma MakesNode(n: Node, t: Tree)
    requires t.Inner? && LayoutOk(n) && Sized(n) && n.partialLen == |t.prefix|
    requires Stored(n) == t.prefix[..Min(|t.prefix|, MAX_PREFIX_LEN)]
    requires Kids(n).Keys == t.kids.Keys && MinChildren(n.kind) <= |Kids(n)|
    requires forall b: Byte :: b in t.kids ==> Kids(n)[b] == t.kids[b].at
    ensures NodeHolds(n, t) && |t.kids| == |Kids(n)|
  {
    hide Kids, LayoutOk, Stored, Min;
    assert |t.kids.Keys| == |Kids(n).Keys|;
  }

  lemma RemovedHolds(node: Node, t: Tree, r: Node, c: Byte, t': Tree)
    requires t.Inner? && NodeHolds(node, t) && c in t.kids && NodeOk(node)
    requires !(node.kind.Kind4? && |Kids(node)| == 2)
    requires Removed(node, r, c) && r.kind == ShrinksTo(node.kind, |Kids(node)|)
    requires t' == Inner(t'.at, t.prefix, t.kids - {c})
    ensures NodeHolds(r, t') && |t'.kids| >= 2
  {
    hide *;
    NodeParts(node, t);
    RemovedFacts(node, r, c);
    FewerKids(Kids(node), c);
    EnoughLeft(node.kind, |Kids(node)|, r.kind);
    assert Kids(r).Keys == t'.kids.Keys;
    MakesNode(r, t');
  }

  lemma LeafDropped(mem: map<Ptr, Cell>, brk: Ptr, t: Tree, path: Key, key: Key, c: Byte, l: Ptr, node: Node, r: Node,
                    mem': map<Ptr, Cell>, brk': Ptr, t': Tree)
    requires Stands(mem, t, path) && (forall p :: p in mem ==> 0 < p < brk) && IsLeafKid(t, path, c, key, l)
    requires t.Inner? && c in t.kids && t.kids[c].Leaf? && t.kids[c].key == key && t.kids[c].at == l
    requires t.at in mem && mem[t.at] == NodeCell(node) && NodeHolds(node, t) && NodeOk(node)
    requires !(node.kind.Kind4? && |Kids(node)| == 2)
    requires Removed(node, r, c) && r.kind == ShrinksTo(node.kind, |Kids(node)|)
    requires t' == Inner(t'.at, t.prefix, t.kids - {c})
    requires brk <= brk' && t'.at != NULL && forall p :: p in mem' ==> 0 < p < brk'
    requires r.kind != node.kind ==> t'.at == brk && mem' == (mem - {t.at})[t'.at := NodeCell(r)]
    requires r.kind == node.kind ==> t'.at == t.at && mem' == mem[t.at := NodeCell(r)]
    ensures DropDone(mem, brk, t, mem', brk', t', path, key, l)
  {
    hide *;
    StandsParts(mem, t, path);
    RemovedHolds(node, t, r, c, t');
    NodeRewritten(mem, brk, t.at, r, mem', t'.at);
    KidDroppedHolds(mem, brk, t, c, mem', brk', r, t');
    LeafKidCell(mem, t, c);
    KidDropped(t, t', path, c);
    StepKeeps(mem, brk, t, mem', brk', t', l);
    AllDropped(mem, brk, t, mem', brk', t', path, key, l);
  }

  lemma NodeStays(mem: map<Ptr, Cell>, brk: Ptr, t: Tree, c: Byte, mem1: map<Ptr, Cell>, brk1: Ptr, kid: Tree,
                  path: Key, key: Key, l: Ptr)
    requires t.Inner? && c in t.kids && Apart(t) && t.at in mem
    requires DropDone(mem, brk, t.kids[c], mem1, brk1, kid, path, key, l)
    ensures t.at in mem1 && mem1[t.at] == mem[t.at]
  {
    hide Stands, Without, Entries, Cells;
  }

  lemma EntriesOfKid(t: Tree, c: Byte)
    requires t.Inner? && c in t.kids
    ensures KidOf(t, c) == Entries(t.kids[c]) && Entries(t.kids[c]) <= Entries(t)
  {
  }

  lemma SlotStored(node: Node, t: Tree, c: Byte, slot: nat, kid: Tree, t': Tree)
    requires t.Inner? && NodeHolds(node, t) && c in t.kids && kid.at != NULL
    requires LayoutOk(node) && c in Kids(node) && slot == SlotOf(node, c) && slot < |node.children|
    requires t' == Inner(t.at, t.prefix, t.kids[c := kid])
    ensures Sized(node) && NodeHolds(SetChild(node, slot, kid.at), t')
  {
    hide Kids, LayoutOk, SlotOf;
    LayoutSized(node);
    SetChildMeans(node, c, slot, kid.at);
  }

  lemma DropBelowDone(mem: map<Ptr, Cell>, brk: Ptr, t: Tree, path: Key, c: Byte, slot: nat, mem1: map<Ptr, Cell>,
                      brk1: Ptr, kid: Tree, key: Key, l: Ptr, mem2: map<Ptr, Cell>, t': Tree)
    requires t.Inner? && c in t.kids && Stands(mem, t, path) && (forall p :: p in mem ==> 0 < p < brk)
    requires t.at in mem && mem[t.at].NodeCell? && NodeHolds(mem[t.at].node, t)
    requires DropDone(mem, brk, t.kids[c], mem1, brk1, kid, path + t.prefix + [c], key, l)
    requires var node := mem[t.at].node;
      LayoutOk(node) && c in Kids(node) && slot == SlotOf(node, c) && slot < |node.children|
      && mem2 == mem1[t.at := NodeCell(SetChild(node, slot, kid.at))]
    requires t' == Inner(t.at, t.prefix, t.kids[c := kid])
    ensures DropDone(mem, brk, t, mem2, brk1, t', path, key, l)
  {
    hide *;
    var node := mem[t.at].node;
    StandsParts(mem, t, path);
    DropParts(mem, brk, t.kids[c], mem1, brk1, kid, path + t.prefix + [c], key, l);
    SlotStored(node, t, c, slot, kid, t');
    ParentHolds(mem, brk, t, c, mem1, brk1, kid, {l}, SetChild(node, slot, kid.at), mem2, t');
    EntriesOfKid(t, c);
    KidShaped(t, path, c);
    KeysFollowPath(t.kids[c], path + t.prefix + [c], (key, mem1[l].value));
    RemoveBelow(t, t', path, c, kid, key);
    StepKeeps(mem, brk, t.kids[c], mem1, brk1, kid, l);
    NotInKid(t, c);
    AllDropped(mem, brk, t, mem2, brk1, t', path, key, l);
  }

  lemma NothingToRemove(es: set<Entry>, key: Key)
    requires !HasKey(es, key)
    ensures Without(es, key) == es
  {
  }

  lemma DropSize(t: Tree, key: Key)
    requires Shaped(t, []) && HasKey(Entries(t), key)
    ensures |Without(Entries(t), key)| == |Entries(t)| - 1
  {
    var es := Entries(t);
    var v: Value :| (key, v) in es;
    forall e | e in es && e.0 == key
      ensures e == (key, v)
    {
      Functional(t, [], key, v, e.1);
    }
    assert Without(es, key) == es - {(key, v)};
  }

  lemma HasAddressStands(mem: map<Ptr, Cell>, t: Tree, path: Key)
    requires Stands(mem, t, path)
    ensures t.at != NULL && t.at in mem
  {
    hide NodeHolds, Apart, Shaped, Cells;
  }

  lemma EmptyPath(key: Key)
    ensures [] <= key
  {
  }

  /** Inserting a new key adds one entry, inserting a stored one adds none. */
  lemma PutSize(t: Tree, key: Key, value: Value)
    requires Shaped(t, [])
    ensures |Put(Entries(t), key, value)| == |Entries(t)| + (if HasKey(Entries(t), key) then 0 else 1)
  {
    var es := Entries(t);
    if HasKey(es, key) {
      var v: Value :| (key, v) in es;
      forall e | e in es && e.0 == key
        ensures e == (key, v)
      {
        Functional(t, [], key, v, e.1);
      }
      assert Without(es, key) == es - {(key, v)};
    } else {
      assert Without(es, key) == es;
    }
  }

  lemma NoPrefix(t: Tree, path: Key, key: Key)
    requires t.Inner? && |t.prefix| == 0 && path <= key
    ensures path + t.prefix <= key
  {
    assert path + t.prefix == path;
  }

  lemma NextByte(t: Tree, path: Key, key: Key)
    requires t.Inner? && path + t.prefix <= key && !(key <= path + t.prefix)
    ensures |path| + |t.prefix| < |key|
    ensures path + t.prefix + [key[|path| + |t.prefix|]] <= key
    ensures |path + t.prefix + [key[|path| + |t.prefix|]]| == |path| + |t.prefix| + 1
  {
    var q := path + t.prefix;
    assert key[..|q|] == q && key[..|key|] == key;
  }

  /** `min` of two or three lengths. */
  function Lesser(a: int, b: int): (m: int)
    ensures m <= a && m <= b && (m == a || m == b)
  {
    if a < b then a else b
  }

  /** The first diff bytes of the prefix go into the new parent. */
  lemma FirstPart(n: Node, t: Tree, diff: nat, m: nat, partial: seq<Byte>)
    requires t.Inner? && NodeHolds(n, t) && diff < |t.prefix| && m == Lesser(MAX_PREFIX_LEN, diff)
    requires |n.partial| == MAX_PREFIX_LEN && partial == n.partial[..m] + Zeros(MAX_PREFIX_LEN - m)
    ensures |partial| == MAX_PREFIX_LEN
    ensures partial[..Min(diff, MAX_PREFIX_LEN)] == t.prefix[..diff][..Min(diff, MAX_PREFIX_LEN)]
  {
    hide *;
    NodeLength(n, t);
    MinIsLesser(diff, MAX_PREFIX_LEN, m);
    forall i | 0 <= i < m
      ensures partial[i] == t.prefix[i]
    {
      StoredByte(n, t, i);
    }
  }

  lemma MinIsLesser(a: nat, b: nat, m: nat)
    requires m == Lesser(b, a)
    ensures Min(a, b) == m
  {
  }

  lemma NodeLength(n: Node, t: Tree)
    requires t.Inner? && NodeHolds(n, t)
    ensures n.partialLen == |t.prefix|
  {
    hide Kids;
  }

  lemma StoredByte(n: Node, t: Tree, i: nat)
    requires t.Inner? && NodeHolds(n, t) && i < MAX_PREFIX_LEN && i < n.partialLen
    ensures i < |n.partial| && i < |t.prefix| && n.partial[i] == t.prefix[i]
  {
    hide Kids;
    assert Stored(n)[i] == n.partial[i];
  }

  lemma MovedPrefix(n: Node, t: Tree, diff: nat, m: nat, partial: seq<Byte>)
    requires t.Inner? && NodeHolds(n, t) && diff < |t.prefix| <= MAX_PREFIX_LEN && |n.partial| == MAX_PREFIX_LEN
    requires m == |t.prefix| - (diff + 1)
    requires partial == MemMove(n.partial, 0, diff + 1, m)
    ensures |partial| == MAX_PREFIX_LEN && partial[..m] == t.prefix[diff + 1..][..m]
  {
    hide NodeHolds;
    forall i | 0 <= i < m
      ensures partial[i] == t.prefix[diff + 1..][i]
    {
      NodeLength(n, t);
      StoredByte(n, t, diff + 1 + i);
    }
  }

  lemma RecoveredPrefix(path: Key, prefix: seq<Byte>, key: Key, diff: nat, m: nat, rest: seq<Byte>)
    requires path + prefix <= key && diff < |prefix| && m <= |prefix| - (diff + 1)
    requires |path| + |prefix| <= |key|
    ensures var at := |path| + diff + 1;
      at + m <= |key| && (key[at..at + m] + rest)[..m] == prefix[diff + 1..][..m]
    ensures key[|path| + diff] == prefix[diff]
  {
    SliceOf(path, prefix, key);
  }

  lemma NewHeader(n: Node, t: Tree, n2: Node, prefix: seq<Byte>)
    requires t.Inner? && NodeHolds(n, t) && |n2.partial| == MAX_PREFIX_LEN
    requires n2 == n.(partialLen := |prefix|, partial := n2.partial)
    requires var m := Lesser(MAX_PREFIX_LEN, |prefix|); n2.partial[..m] == prefix[..m]
    ensures NodeHolds(n2, Inner(t.at, prefix, t.kids))
  {
    hide Kids, LayoutOk;
    HeaderOnly(n, n2);
  }

  /** What every insertion below a subtree guarantees. */
  ghost predicate PutDone(mem: map<Ptr, Cell>, brk: Ptr, t: Tree, mem': map<Ptr, Cell>, brk': Ptr, t': Tree, path: Key,
                          key: Key, value: Value, oldValue: Option<Value>) {
    && Stands(mem', t', path)
    && Step(mem, brk, t, mem', brk', t', {})
    && Entries(t') == Put(Entries(t), key, value)
    && (oldValue.Some? <==> HasKey(Entries(t), key))
    && (oldValue.Some? ==> (key, oldValue.value) in Entries(t))
  }

  lemma LeafHolds(mem: map<Ptr, Cell>, path: Key, l: Tree)
    requires l.Leaf? && l.at != NULL && l.at in mem && mem[l.at] == LeafCell(l.key, l.value)
    ensures Holds(mem, l) && Entries(l) == {(l.key, l.value)}
    ensures path <= l.key ==> Shaped(l, path)
  {
  }

  lemma AllDone(mem: map<Ptr, Cell>, brk: Ptr, t: Tree, mem': map<Ptr, Cell>, brk': Ptr, t': Tree, path: Key, key: Key,
                value: Value, oldValue: Option<Value>)
    requires Holds(mem', t') && Apart(t') && Shaped(t', path)
    requires Step(mem, brk, t, mem', brk', t', {})
    requires Entries(t') == Put(Entries(t), key, value)
    requires oldValue.Some? <==> HasKey(Entries(t), key)
    requires oldValue.Some? ==> (key, oldValue.value) in Entries(t)
    ensures PutDone(mem, brk, t, mem', brk', t', path, key, value, oldValue)
  {
    hide Holds, Apart, Shaped, Step, Entries, HasKey, Put;
  }

  lemma PathPieces(path: Key, prefix: seq<Byte>, diff: nat, key: Key)
    requires diff < |prefix| && |path| + diff < |key| && path + prefix[..diff] <= key
    ensures path + prefix == (path + prefix[..diff] + [prefix[diff]]) + prefix[diff + 1..]
    ensures path + prefix[..diff] + [key[|path| + diff]] <= key
  {
    var q := path + prefix[..diff];
    assert key[..|q|] == q;
  }

  lemma ForkKeys(fork: Node, t': Tree, b: Byte, s: Tree, c: Byte, leaf: Tree)
    requires t'.Inner? && b != c && t'.kids == map[b := s, c := leaf]
    requires NodeOk(fork) && fork.partialLen == |t'.prefix|
    requires Stored(fork) == t'.prefix[..Min(|t'.prefix|, MAX_PREFIX_LEN)]
    requires Kids(fork) == map[b := s.at, c := leaf.at]
    ensures NodeHolds(fork, t')
  {
    hide Kids, NodeOk;
  }

  lemma AlongPath(path: Key, prefix: seq<Byte>, key: Key, i: nat)
    requires path + prefix <= key && i < |prefix|
    ensures |path| + i < |key| && key[|path| + i] == prefix[i]
  {
    SliceOf(path, prefix, key);
  }

  /** A key that leaves the prefix of a node is not stored below it. */
  lemma OffThePrefix(t: Tree, path: Key, key: Key, diff: nat)
    requires t.Inner? && Shaped(t, path) && diff < |t.prefix|
    requires |path| + diff < |key| && key[|path| + diff] != t.prefix[diff]
    ensures !HasKey(Entries(t), key)
  {
    if HasKey(Entries(t), key) {
      var v: Value :| (key, v) in Entries(t);
      KeysFollowPath(t, path, (key, v));
      AlongPath(path, t.prefix, key, diff);
    }
  }

  lemma NewEntry(es: set<Entry>, key: Key, value: Value)
    requires !HasKey(es, key)
    ensures es + {(key, value)} == Put(es, key, value)
  {
  }

  lemma PrefixSplitDone(mem: map<Ptr, Cell>, brk: Ptr, t: Tree, path: Key, key: Key, value: Value, diff: nat,
                        node2: Node, l: Ptr, fork: Node, mem': map<Ptr, Cell>, brk': Ptr, t': Tree)
    requires Stands(mem, t, path) && (forall p :: p in mem ==> 0 < p < brk) && t.Inner? && diff < |t.prefix|
    requires |path| + diff < |key| && key[|path| + diff] != t.prefix[diff] && path + t.prefix[..diff] <= key
    requires NodeHolds(node2, Inner(t.at, t.prefix[diff + 1..], t.kids))
    requires NodeOk(fork) && fork.partialLen == diff
    requires Stored(fork) == t.prefix[..diff][..Min(diff, MAX_PREFIX_LEN)]
    requires Kids(fork) == map[t.prefix[diff] := t.at, key[|path| + diff] := l]
    requires t' == Inner(l + 1, t.prefix[..diff],
      map[t.prefix[diff] := Inner(t.at, t.prefix[diff + 1..], t.kids), key[|path| + diff] := Leaf(l, key, value)])
    requires l == brk && brk' == l + 2 && l != NULL && l + 1 != NULL
    requires mem' == mem[t.at := NodeCell(node2)][l := LeafCell(key, value)][l + 1 := NodeCell(fork)]
    ensures PutDone(mem, brk, t, mem', brk', t', path, key, value, None)
  {
    hide *;
    var b, c := t.prefix[diff], key[|path| + diff];
    var s, leaf := Inner(t.at, t.prefix[diff + 1..], t.kids), Leaf(l, key, value);
    StandsParts(mem, t, path);
    CellsAllocated(mem, t);
    HeaderChangedHolds(mem, brk, t, mem', node2, s);
    PathPieces(path, t.prefix, diff, key);
    MovePrefix(t, s, path, path + t.prefix[..diff] + [b]);
    ForkKeys(fork, t', b, s, c, leaf);
    LeafHolds(mem', path + t.prefix[..diff] + [c], leaf);
    ForkHolds(mem, brk, t, mem', brk', fork, b, s, c, leaf, t');
    MakeFork(t', path, b, s, c, leaf);
    OffThePrefix(t, path, key, diff);
    NewEntry(Entries(t), key, value);
    AllDone(mem, brk, t, mem', brk', t', path, key, value, None);
  }

  lemma PutIntoNothing(t: Tree, c: Byte, key: Key, value: Value)
    requires t.Inner? && c !in t.kids
    ensures Put(KidOf(t, c), key, value) == {(key, value)}
  {
  }

  lemma LastByte(path: Key, prefix: seq<Byte>, key: Key)
    requires |path| + |prefix| < |key| && path + prefix <= key
    ensures path + prefix + [key[|path| + |prefix|]] <= key
  {
    var q := path + prefix;
    assert key[..|q|] == q;
  }

  lemma WasRewritten(mem: map<Ptr, Cell>, brk: Ptr, from: Ptr, l: Ptr, leaf: Cell, r: Node, mem': map<Ptr, Cell>,
                     to: Ptr)
    requires from in mem && from != NULL && (forall p :: p in mem ==> 0 < p < brk) && l == brk
    requires (to == l + 1 && mem' == (mem[l := leaf] - {from})[l + 1 := NodeCell(r)])
          || (to == from && mem' == mem[l := leaf][from := NodeCell(r)])
    ensures Rewritten(mem, brk, from, mem', to, {l}) && l in mem' && mem'[l] == leaf && mem'[to] == NodeCell(r)
  {
  }

  lemma EnoughAfterAdd(kind: Kind, count: nat, kind': Kind)
    requires MinChildren(kind) <= count && kind' == GrowsTo(kind, count)
    ensures MinChildren(kind') <= count + 1
  {
  }

  lemma LayoutCount(n: Node)
    requires LayoutOk(n)
    ensures Sized(n) && (n.kind.Kind4? ==> |Kids(n)| <= 4) && (n.kind.Kind16? ==> |Kids(n)| <= 16)
  {
    hide Kids;
  }

  lemma AddedHolds(node: Node, t: Tree, r: Node, c: Byte, leaf: Tree, t': Tree)
    requires t.Inner? && NodeHolds(node, t) && LayoutOk(node) && c !in Kids(node)
    requires Added(node, r, c, leaf.at) && r.kind == GrowsTo(node.kind, |Kids(node)|)
    requires t' == Inner(t'.at, t.prefix, t.kids[c := leaf])
    ensures NodeHolds(r, t')
  {
    hide *;
    NodeParts(node, t);
    AddedFacts(node, r, c, leaf.at);
    assert |Kids(r)| == |Kids(node)| + 1;
    LayoutCount(node);
    EnoughAfterAdd(node.kind, |Kids(node)|, r.kind);
    MakesNode(r, t');
  }

  /** A key in the tree continues in the kid of its next byte. */
  lemma OnlyThisKid(t: Tree, path: Key, key: Key, c: Byte)
    requires t.Inner? && Shaped(t, path)
    requires var d := |path| + |t.prefix|; d < |key| ==> c == key[d]
    ensures HasKey(Entries(t), key) ==> c in t.kids && HasKey(Entries(t.kids[c]), key)
  {
    hide Entries, Shaped;
    if HasKey(Entries(t), key) {
      var v: Value :| (key, v) in Entries(t);
      KeysFollowPath(t, path, (key, v));
    }
  }

  lemma LeafAdded(mem: map<Ptr, Cell>, brk: Ptr, t: Tree, path: Key, key: Key, value: Value, l: Ptr, node: Node,
                  r: Node, mem': map<Ptr, Cell>, brk': Ptr, t': Tree)
    requires Stands(mem, t, path) && (forall p :: p in mem ==> 0 < p < brk) && t.Inner?
    requires |path| + |t.prefix| < |key| && path + t.prefix <= key
    requires t.at in mem && mem[t.at] == NodeCell(node) && NodeHolds(node, t) && LayoutOk(node)
    requires var c := key[|path| + |t.prefix|];
      && c !in t.kids && c !in Kids(node) && Added(node, r, c, l) && r.kind == GrowsTo(node.kind, |Kids(node)|)
      && t' == Inner(t'.at, t.prefix, t.kids[c := Leaf(l, key, value)])
    requires l == brk && l != NULL && brk' > l && forall p :: p in mem' ==> 0 < p < brk'
    requires r.kind != node.kind ==>
      t'.at == l + 1 && mem' == (mem[l := LeafCell(key, value)] - {t.at})[l + 1 := NodeCell(r)]
    requires r.kind == node.kind ==>
      t'.at == t.at && mem' == mem[l := LeafCell(key, value)][t.at := NodeCell(r)]
    ensures PutDone(mem, brk, t, mem', brk', t', path, key, value, None)
  {
    hide *;
    var c, leaf := key[|path| + |t.prefix|], Leaf(l, key, value);
    StandsParts(mem, t, path);
    AddedHolds(node, t, r, c, leaf, t');
    WasRewritten(mem, brk, t.at, l, LeafCell(key, value), r, mem', t'.at);
    LastByte(path, t.prefix, key);
    LeafHolds(mem', path + t.prefix + [c], leaf);
    KidAddedHolds(mem, brk, t, c, leaf, mem', brk', r, t');
    OnlyThisKid(t, path, key, c);
    PutIntoNothing(t, c, key, value);
    PutBelow(t, t', path, c, leaf, key, value);
    AllDone(mem, brk, t, mem', brk', t', path, key, value, None);
  }

  lemma NodeUntouched(mem: map<Ptr, Cell>, brk: Ptr, t: Tree, c: Byte, mem1: map<Ptr, Cell>, brk1: Ptr, kid: Tree,
                      path: Key, key: Key, value: Value, oldValue: Option<Value>)
    requires t.Inner? && c in t.kids && Apart(t) && t.at in mem
    requires PutDone(mem, brk, t.kids[c], mem1, brk1, kid, path, key, value, oldValue)
    ensures t.at in mem1 && mem1[t.at] == mem[t.at]
  {
    hide Stands, Put, Entries, HasKey, Cells;
  }

  lemma SameBelow(t: Tree, path: Key, c: Byte, key: Key)
    requires t.Inner? && c in t.kids && Shaped(t, path) && path + t.prefix + [c] <= key
    ensures HasKey(Entries(t), key) <==> HasKey(Entries(t.kids[c]), key)
  {
    var q := path + t.prefix;
    assert (q + [c])[|q|] == c;
    OnlyThisKid(t, path, key, c);
    EntriesOfKid(t, c);
  }

  lemma DoneParts(mem: map<Ptr, Cell>, brk: Ptr, t: Tree, mem': map<Ptr, Cell>, brk': Ptr, t': Tree, path: Key,
                  key: Key, value: Value, oldValue: Option<Value>)
    requires PutDone(mem, brk, t, mem', brk', t', path, key, value, oldValue)
    ensures Holds(mem', t') && Apart(t') && Shaped(t', path) && t'.at != NULL
    ensures Step(mem, brk, t, mem', brk', t', {})
    ensures Entries(t') == Put(Entries(t), key, value)
    ensures oldValue.Some? <==> HasKey(Entries(t), key)
    ensures oldValue.Some? ==> (key, oldValue.value) in Entries(t)
  {
    hide Apart, Shaped, Step, Entries, HasKey, Put, NodeHolds;
  }

  lemma PutBelowDone(mem: map<Ptr, Cell>, brk: Ptr, t: Tree, path: Key, c: Byte, slot: nat, mem1: map<Ptr, Cell>,
                     brk1: Ptr, kid: Tree, key: Key, value: Value, oldValue: Option<Value>, mem2: map<Ptr, Cell>,
                     t': Tree)
    requires t.Inner? && c in t.kids && Stands(mem, t, path) && (forall p :: p in mem ==> 0 < p < brk)
    requires t.at in mem && mem[t.at].NodeCell? && NodeHolds(mem[t.at].node, t)
    requires path + t.prefix + [c] <= key
    requires PutDone(mem, brk, t.kids[c], mem1, brk1, kid, path + t.prefix + [c], key, value, oldValue)
    requires var node := mem[t.at].node;
      LayoutOk(node) && c in Kids(node) && slot == SlotOf(node, c) && slot < |node.children|
      && mem2 == mem1[t.at := NodeCell(SetChild(node, slot, kid.at))]
    requires t' == Inner(t.at, t.prefix, t.kids[c := kid])
    ensures PutDone(mem, brk, t, mem2, brk1, t', path, key, value, oldValue)
  {
    hide *;
    var node := mem[t.at].node;
    StandsParts(mem, t, path);
    DoneParts(mem, brk, t.kids[c], mem1, brk1, kid, path + t.prefix + [c], key, value, oldValue);
    SlotStored(node, t, c, slot, kid, t');
    ParentHolds(mem, brk, t, c, mem1, brk1, kid, {}, SetChild(node, slot, kid.at), mem2, t');
    EntriesOfKid(t, c);
    PutBelow(t, t', path, c, kid, key, value);
    SameBelow(t, path, c, key);
    AllDone(mem, brk, t, mem2, brk1, t', path, key, value, oldValue);
  }

  lemma LeafUpdated(mem: map<Ptr, Cell>, brk: Ptr, t: Tree, mem': map<Ptr, Cell>, path: Key, value: Value)
    requires t.Leaf? && Stands(mem, t, path) && (forall p :: p in mem ==> 0 < p < brk)
    requires mem' == mem[t.at := LeafCell(t.key, value)]
    ensures PutDone(mem, brk, t, mem', brk, Leaf(t.at, t.key, value), path, t.key, value, Some(t.value))
    ensures forall p :: p in mem' ==> 0 < p < brk
  {
    assert (t.key, t.value) in Entries(t);
  }

  lemma LeafParts(t: Tree, path: Key, key: Key)
    requires t.Leaf? && path <= t.key && PrefixFree(Entries(t), key) && path <= key && key != t.key
    ensures path <= t.key && |path| <= |t.key| && |path| <= |key|
    ensures !(key <= t.key) && !(t.key <= key)
    ensures !HasKey(Entries(t), key)
  {
    assert (t.key, t.value) in Entries(t);
  }

  /** Keys that share exactly `longest` bytes after the path part at the next byte. */
  lemma LeafSplit(t: Tree, path: Key, key: Key, longest: nat)
    requires t.Leaf? && path <= t.key && path <= key && !(key <= t.key) && !(t.key <= key)
    requires |path| + longest <= |t.key| && |path| + longest <= |key|
    requires t.key[|path|..|path| + longest] == key[|path|..|path| + longest]
    ensures var d := |path| + longest;
      && d < |key| && d < |t.key|
      && path + key[|path|..d] + [t.key[d]] <= t.key
      && path + key[|path|..d] + [key[d]] <= key
  {
    var d := |path| + longest;
    assert key[..d] == path + key[|path|..d];
    assert t.key[..d] == path + t.key[|path|..d];
    assert key[..|key|] == key && t.key[..|t.key|] == t.key;
  }

  lemma CopiedPrefix(key: Key, depth: nat, longest: nat, m: nat, partial: seq<Byte>)
    requires depth + longest <= |key| && m <= longest && m <= MAX_PREFIX_LEN && (m == longest || m == MAX_PREFIX_LEN)
    requires partial == key[depth..depth + m] + Zeros(MAX_PREFIX_LEN - m)
    ensures m == Min(longest, MAX_PREFIX_LEN) && |partial| == MAX_PREFIX_LEN
    ensures partial[..Min(longest, MAX_PREFIX_LEN)] == key[depth..depth + longest][..Min(longest, MAX_PREFIX_LEN)]
  {
  }

  lemma CutEnd(key: Key, i: nat, j: nat)
    requires i <= j <= |key|
    ensures |key[i..j]| == j - i
  {
  }

  lemma LeafSplitDone(mem: map<Ptr, Cell>, brk: Ptr, t: Tree, path: Key, key: Key, value: Value, longest: nat, l2: Ptr,
                      node: Node, mem': map<Ptr, Cell>, brk': Ptr, t': Tree)
    requires t.Leaf? && Stands(mem, t, path) && (forall p :: p in mem ==> 0 < p < brk)
    requires var d := |path| + longest;
      && d < |key| && d < |t.key| && t.key[d] != key[d]
      && path + key[|path|..d] + [t.key[d]] <= t.key
      && path + key[|path|..d] + [key[d]] <= key
      && t' == Inner(l2 + 1, key[|path|..d], map[t.key[d] := t, key[d] := Leaf(l2, key, value)])
      && node.partialLen == longest && NodeOk(node)
      && Stored(node) == key[|path|..d][..Min(longest, MAX_PREFIX_LEN)]
      && Kids(node) == map[t.key[d] := t.at, key[d] := l2]
    requires l2 == brk && l2 != NULL && l2 + 1 != NULL
    requires mem' == mem[l2 := LeafCell(key, value)][l2 + 1 := NodeCell(node)] && brk' == l2 + 2
    requires !HasKey(Entries(t), key)
    ensures PutDone(mem, brk, t, mem', brk', t', path, key, value, None)
  {
    hide *;
    var d := |path| + longest;
    var l := Leaf(l2, key, value);
    StandsParts(mem, t, path);
    CellsAllocated(mem, t);
    HoldsFrame(mem, mem', t);
    CutEnd(key, |path|, d);
    ForkKeys(node, t', t.key[d], t, key[d], l);
    LeafHolds(mem', path + key[|path|..d] + [key[d]], l);
    LeafOnLongerPath(t, path + key[|path|..d] + [t.key[d]]);
    ForkHolds(mem, brk, t, mem', brk', node, t.key[d], t, key[d], l, t');
    MakeFork(t', path, t.key[d], t, key[d], l);
    NewEntry(Entries(t), key, value);
    AllDone(mem, brk, t, mem', brk', t', path, key, value, None);
  }

  function Least(a: int, b: int, c: int): (m: int)
    ensures m <= a && m <= b && m <= c && (m == a || m == b || m == c)
  {
    Lesser(Lesser(a, b), c)
  }

  lemma FollowedSoFar(path: Key, prefix: seq<Byte>, key: Key, idx: nat)
    requires path <= key && idx <= |prefix| && |path| + idx <= |key|
    requires forall i :: 0 <= i < idx ==> key[|path| + i] == prefix[i]
    ensures path + prefix[..idx] <= key
  {
  }

  lemma WholePrefix(path: Key, prefix: seq<Byte>, key: Key)
    ensures prefix[..|prefix|] == prefix
    ensures path + prefix <= key ==> |path| + |prefix| <= |key|
  {
  }

  lemma BelowPrefix(path: Key, prefix: seq<Byte>, key: Key)
    requires path + prefix <= key
    ensures |path| + |prefix| <= |key|
    ensures forall i :: 0 <= i < |prefix| ==> key[|path| + i] == prefix[i]
  {
    SliceOf(path, prefix, key);
  }

  lemma LeafAnswer(t: Tree, es: set<Entry>, key: Key)
    requires t.Leaf? && Entries(t) <= es
    ensures HasKey(Entries(t), key) <==> t.key == key
    ensures t.key == key ==> HasKey(es, key)
    ensures (t.key, t.value) in Entries(t)
  {
  }

  lemma InnerFacts(mem: map<Ptr, Cell>, t: Tree, path: Key)
    requires Stands(mem, t, path) && t.at in mem && mem[t.at].NodeCell?
    ensures t.Inner? && NodeHolds(mem[t.at].node, t) && Shaped(t, path) && t.at != NULL
    ensures var n := mem[t.at].node;
      && NodeOk(n) && LayoutOk(n) && Sized(n) && |n.partial| == MAX_PREFIX_LEN && n.partialLen == |t.prefix|
      && Stored(n) == t.prefix[..Min(|t.prefix|, MAX_PREFIX_LEN)]
      && |Stored(n)| == Min(|t.prefix|, MAX_PREFIX_LEN) == Min(MAX_PREFIX_LEN, n.partialLen)
      && Kids(n).Keys == t.kids.Keys
      && forall b: Byte :: b in t.kids ==> Kids(n)[b] == t.kids[b].at
  {
    hide Kids;
  }

  /** A stored prefix byte that differs from the key rules the whole subtree out. */
  lemma MismatchMeansAbsent(t: Tree, path: Key, key: Key, n: Node, matched: nat)
    requires t.Inner? && Shaped(t, path) && Sized(n)
    requires Stored(n) == t.prefix[..Min(|t.prefix|, MAX_PREFIX_LEN)]
    requires matched < |Stored(n)|
    requires |path| + matched < |key| ==> key[|path| + matched] != Stored(n)[matched]
    ensures !HasKey(Entries(t), key)
  {
    if HasKey(Entries(t), key) {
      var v: Value :| (key, v) in Entries(t);
      KeysFollowPath(t, path, (key, v));
      AlongPath(path, t.prefix, key, matched);
    }
  }
}
