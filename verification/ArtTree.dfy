/** The adaptive radix tree in memory.

    `mem` maps addresses to the cells allocated there; the operations overwrite cells, allocate
    and free them as the C code does.  The ghost `tree` says which abstract tree the cells hold.
    A reference to a child slot that the C code passes down (`ref`) is an out-parameter here: the
    caller stores it back into the slot it came from. */
module ArtTree {
  import opened ArtNode
  import opened ArtShape

  datatype Cell = LeafCell(key: Key, value: Value) | NodeCell(node: Node)

  // ----- what it means for memory to hold a tree -----

  ghost function Cells(t: Tree): set<Ptr> {
    match t
    case Leaf(at, _, _) => {at}
    case Inner(at, _, kids) => {at} + set b: Byte, p | b in kids && p in Cells(kids[b]) :: p
  }

  /** No cell is shared between two parts of the tree. */
  ghost predicate Apart(t: Tree) {
    t.Inner? ==>
      && (forall b: Byte :: b in t.kids ==> Apart(t.kids[b]) && t.at !in Cells(t.kids[b]))
      && (forall b: Byte, c: Byte :: b in t.kids && c in t.kids && b != c ==> Cells(t.kids[b]) !! Cells(t.kids[c]))
  }

  /** A stored node stands for an inner node of the tree: the right children, the full length of
      the prefix, and as much of the prefix as there is room for. */
  ghost predicate NodeHolds(n: Node, t: Tree)
    requires t.Inner?
  {
    && NodeOk(n)
    && n.partialLen == |t.prefix|
    && Stored(n) == t.prefix[..Min(|t.prefix|, MAX_PREFIX_LEN)]
    && Kids(n).Keys == t.kids.Keys
    && forall b: Byte :: b in t.kids ==> Kids(n)[b] == t.kids[b].at
  }

  ghost predicate Holds(mem: map<Ptr, Cell>, t: Tree) {
    && t.at != NULL && t.at in mem
    && match t
       case Leaf(at, key, value) => mem[at] == LeafCell(key, value)
       case Inner(at, _, kids) =>
         && mem[at].NodeCell? && NodeHolds(mem[at].node, t)
         && forall b: Byte :: b in kids ==> Holds(mem, kids[b])
  }

  lemma {:induction false} HoldsFrame(mem: map<Ptr, Cell>, mem': map<Ptr, Cell>, t: Tree)
    requires Holds(mem, t)
    requires forall p :: p in Cells(t) && p in mem ==> p in mem' && mem'[p] == mem[p]
    ensures Holds(mem', t)
    decreases t
  {
    hide NodeHolds;
    assert t.at in Cells(t);
    if t.Inner? {
      forall b: Byte | b in t.kids
        ensures Holds(mem', t.kids[b])
      {
        assert forall p :: p in Cells(t.kids[b]) ==> p in Cells(t);
        HoldsFrame(mem, mem', t.kids[b]);
      }
    }
  }

  lemma {:induction false} CellsAllocated(mem: map<Ptr, Cell>, t: Tree)
    requires Holds(mem, t)
    ensures Cells(t) <= mem.Keys && NULL !in Cells(t)
    decreases t
  {
    hide NodeHolds;
    if t.Inner? {
      forall b: Byte | b in t.kids
        ensures Cells(t.kids[b]) <= mem.Keys && NULL !in Cells(t.kids[b])
      {
        CellsAllocated(mem, t.kids[b]);
      }
    }
  }

  lemma KidCells(t: Tree, b: Byte)
    requires t.Inner? && b in t.kids
    ensures Cells(t.kids[b]) <= Cells(t) && t.at in Cells(t)
  {
  }

  /** All memory operations of an insert or delete below one subtree, seen from outside it. */
  ghost predicate Step(mem: map<Ptr, Cell>, brk: Ptr, t: Tree, mem': map<Ptr, Cell>, brk': Ptr, t': Tree,
                       extra: set<Ptr>) {
    && brk <= brk'
    && mem'.Keys == (mem.Keys - Cells(t)) + Cells(t') + extra
    && (forall p :: p in mem && p !in Cells(t) ==> mem'[p] == mem[p])
    && (forall p :: p in Cells(t') ==> p in Cells(t) || brk <= p)
    && (forall p :: p in mem' ==> p < brk')
    && extra <= Cells(t) && extra !! Cells(t')
  }

  /** The tree t' is in memory, shaped for the given path. */
  ghost predicate Stands(mem: map<Ptr, Cell>, t: Tree, path: Key) {
    Holds(mem, t) && Apart(t) && Shaped(t, path)
  }

  // ----- how one changed subtree changes the tree above it -----

  /** Replacing kid b of t by c, which the step produced, and updating the parent's cell. */
  lemma ParentHolds(mem: map<Ptr, Cell>, brk: Ptr, t: Tree, b: Byte, mem1: map<Ptr, Cell>, brk1: Ptr, c: Tree,
                    extra: set<Ptr>, n: Node, mem2: map<Ptr, Cell>, t': Tree)
    requires t.Inner? && b in t.kids && Holds(mem, t) && Apart(t)
    requires forall p :: p in mem ==> p < brk
    requires Step(mem, brk, t.kids[b], mem1, brk1, c, extra) && Holds(mem1, c) && Apart(c)
    requires t' == t.(kids := t.kids[b := c])
    requires mem2 == mem1[t.at := NodeCell(n)] && NodeHolds(n, t')
    ensures Holds(mem2, t') && Apart(t')
    ensures Step(mem, brk, t, mem2, brk1, t', extra)
  {
    hide *;
    HasAddress(mem, t);
    ParentKids(mem, brk, t, b, mem1, brk1, c, extra, mem2, t.at, NodeCell(n));
    ParentStep(mem, brk, t, b, mem1, brk1, c, extra, mem2, NodeCell(n), t');
    KidsDisjoint(t);
    Assemble(mem2, n, t');
  }

  lemma KidsDisjoint(t: Tree)
    requires t.Inner? && Apart(t)
    ensures forall x: Byte, y: Byte :: x in t.kids && y in t.kids && x != y ==> Cells(t.kids[x]) !! Cells(t.kids[y])
  {
    hide Cells;
  }

  lemma HasAddress(mem: map<Ptr, Cell>, t: Tree)
    requires Holds(mem, t)
    ensures t.at != NULL && t.at in mem
  {
  }

  /** An inner node over kids that are in memory and share no cells. */
  lemma Assemble(mem: map<Ptr, Cell>, n: Node, t: Tree)
    requires t.Inner? && t.at != NULL && t.at in mem && mem[t.at] == NodeCell(n) && NodeHolds(n, t)
    requires forall x: Byte :: x in t.kids ==> Holds(mem, t.kids[x]) && Apart(t.kids[x]) && t.at !in Cells(t.kids[x])
    requires forall x: Byte, y: Byte :: x in t.kids && y in t.kids && x != y ==> Cells(t.kids[x]) !! Cells(t.kids[y])
    ensures Holds(mem, t) && Apart(t)
  {
    hide NodeHolds, Cells;
  }

  /** The siblings of the changed subtree are untouched. */
  lemma ParentKids(mem: map<Ptr, Cell>, brk: Ptr, t: Tree, b: Byte, mem1: map<Ptr, Cell>, brk1: Ptr, c: Tree,
                   extra: set<Ptr>, mem2: map<Ptr, Cell>, at: Ptr, cell: Cell)
    requires t.Inner? && b in t.kids && Holds(mem, t) && Apart(t)
    requires forall p :: p in mem ==> p < brk
    requires Step(mem, brk, t.kids[b], mem1, brk1, c, extra) && Holds(mem1, c) && Apart(c)
    requires mem2 == mem1[at := cell] && at == t.at
    ensures Holds(mem2, c) && at !in Cells(c)
    ensures forall x: Byte :: x in t.kids && x != b ==>
      Holds(mem2, t.kids[x]) && Apart(t.kids[x]) && at !in Cells(t.kids[x]) && Cells(t.kids[x]) !! Cells(c)
  {
    hide NodeHolds;
    assert at in mem && at < brk && at !in Cells(t.kids[b]);
    HoldsFrame(mem1, mem2, c);
    forall x: Byte | x in t.kids && x != b
      ensures Holds(mem2, t.kids[x]) && Apart(t.kids[x]) && at !in Cells(t.kids[x]) && Cells(t.kids[x]) !! Cells(c)
    {
      CellsAllocated(mem, t.kids[x]);
      HoldsFrame(mem, mem2, t.kids[x]);
    }
  }

  lemma ParentStep(mem: map<Ptr, Cell>, brk: Ptr, t: Tree, b: Byte, mem1: map<Ptr, Cell>, brk1: Ptr, c: Tree,
                   extra: set<Ptr>, mem2: map<Ptr, Cell>, cell: Cell, t': Tree)
    requires t.Inner? && b in t.kids && Holds(mem, t) && Apart(t)
    requires forall p :: p in mem ==> p < brk
    requires Step(mem, brk, t.kids[b], mem1, brk1, c, extra)
    requires t' == t.(kids := t.kids[b := c])
    requires mem2 == mem1[t.at := cell]
    ensures Step(mem, brk, t, mem2, brk1, t', extra)
  {
    hide NodeHolds, Holds;
    CellsAllocated(mem, t);
    CellsReplaced(t, b, c, t');
    KidCells(t, b);
    assert t.at in Cells(t) && t.at !in Cells(t.kids[b]);
    assert t.at in mem && t.at in mem1;
  }

  lemma CellsReplaced(t: Tree, b: Byte, c: Tree, t': Tree)
    requires t.Inner? && b in t.kids && Apart(t)
    requires t' == t.(kids := t.kids[b := c])
    ensures Cells(t') == (Cells(t) - Cells(t.kids[b])) + Cells(c)
  {
    forall p | p in Cells(t')
      ensures p in (Cells(t) - Cells(t.kids[b])) + Cells(c)
    {
      CellStays(t, b, c, t', p);
    }
    forall p | p in (Cells(t) - Cells(t.kids[b])) + Cells(c)
      ensures p in Cells(t')
    {
      CellBelongs(t, b, c, t', p);
    }
  }

  lemma CellStays(t: Tree, b: Byte, c: Tree, t': Tree, p: Ptr)
    requires t.Inner? && b in t.kids && Apart(t) && t' == t.(kids := t.kids[b := c]) && p in Cells(t')
    ensures (p in Cells(t) && p !in Cells(t.kids[b])) || p in Cells(c)
  {
    if p != t.at {
      var x: Byte :| x in t'.kids && p in Cells(t'.kids[x]);
      if x != b { assert p in Cells(t.kids[x]); }
    }
  }

  lemma CellBelongs(t: Tree, b: Byte, c: Tree, t': Tree, p: Ptr)
    requires t.Inner? && b in t.kids && t' == t.(kids := t.kids[b := c])
    requires (p in Cells(t) && p !in Cells(t.kids[b])) || p in Cells(c)
    ensures p in Cells(t')
  {
    if p in Cells(c) {
      assert t'.kids[b] == c;
    } else if p != t.at {
      var x: Byte :| x in t.kids && p in Cells(t.kids[x]);
      assert t'.kids[x] == t.kids[x];
    }
  }

  // ----- a node that gains or loses a kid, in place or by moving to a new cell -----

  /** mem2 is mem with the cell `from` replaced by a node cell at `to` (the same address, or a new
      one after which `from` is freed), and with the cells in `more` added. */
  ghost predicate Rewritten(mem: map<Ptr, Cell>, brk: Ptr, from: Ptr, mem2: map<Ptr, Cell>, to: Ptr, more: set<Ptr>) {
    && from in mem && to in mem2 && to != NULL
    && (to == from || brk <= to)
    && (forall p :: p in more ==> brk <= p && p != to)
    && mem2.Keys == (mem.Keys - {from}) + {to} + more
    && forall p :: p in mem && p != from ==> mem2[p] == mem[p]
  }

  /** Kids of a rewritten node are still in place. */
  lemma RewrittenKids(mem: map<Ptr, Cell>, brk: Ptr, t: Tree, mem2: map<Ptr, Cell>, to: Ptr, more: set<Ptr>)
    requires t.Inner? && Holds(mem, t) && Apart(t) && (forall p :: p in mem ==> p < brk)
    requires Rewritten(mem, brk, t.at, mem2, to, more)
    ensures forall x: Byte :: x in t.kids ==>
      Holds(mem2, t.kids[x]) && Apart(t.kids[x]) && to !in Cells(t.kids[x]) && Cells(t.kids[x]) !! more
  {
    hide NodeHolds;
    forall x: Byte | x in t.kids
      ensures Holds(mem2, t.kids[x]) && Apart(t.kids[x]) && to !in Cells(t.kids[x]) && Cells(t.kids[x]) !! more
    {
      CellsAllocated(mem, t.kids[x]);
      HoldsFrame(mem, mem2, t.kids[x]);
    }
  }

  lemma KidAddedHolds(mem: map<Ptr, Cell>, brk: Ptr, t: Tree, b: Byte, l: Tree, mem2: map<Ptr, Cell>, brk2: Ptr,
                      n: Node, t': Tree)
    requires t.Inner? && b !in t.kids && Holds(mem, t) && Apart(t) && (forall p :: p in mem ==> p < brk)
    requires l.Leaf? && Rewritten(mem, brk, t.at, mem2, t'.at, {l.at}) && Holds(mem2, l)
    requires t'.Inner? && t'.kids == t.kids[b := l]
    requires mem2[t'.at] == NodeCell(n) && NodeHolds(n, t')
    requires brk <= brk2 && forall p :: p in mem2 ==> p < brk2
    ensures Holds(mem2, t') && Apart(t') && Step(mem, brk, t, mem2, brk2, t', {})
  {
    hide NodeHolds, Step, Holds, Apart;
    HasAddress(mem, t);
    RewrittenKids(mem, brk, t, mem2, t'.at, {l.at});
    KidsDisjoint(t);
    assert Cells(l) == {l.at};
    assert Apart(l) by { LeafApart(l); }
    Assemble(mem2, n, t');
    CellsAdded(t, b, l, t');
    CellsAllocated(mem, t);
    KidAddedStep(mem, brk, t, l, mem2, brk2, t');
  }

  lemma LeafApart(l: Tree)
    requires l.Leaf?
    ensures Apart(l)
  {
  }

  lemma KidAddedStep(mem: map<Ptr, Cell>, brk: Ptr, t: Tree, l: Tree, mem2: map<Ptr, Cell>, brk2: Ptr, t': Tree)
    requires Rewritten(mem, brk, t.at, mem2, t'.at, {l.at}) && (forall p :: p in mem ==> p < brk)
    requires Cells(t') == (Cells(t) - {t.at}) + {t'.at, l.at} && Cells(t) <= mem.Keys && t.at in Cells(t)
    requires brk <= brk2 && forall p :: p in mem2 ==> p < brk2
    ensures Step(mem, brk, t, mem2, brk2, t', {})
  {
    hide Cells;
  }

  lemma CellsAdded(t: Tree, b: Byte, l: Tree, t': Tree)
    requires t.Inner? && b !in t.kids && Apart(t) && l.Leaf?
    requires t'.Inner? && t'.kids == t.kids[b := l]
    ensures Cells(t') == (Cells(t) - {t.at}) + {t'.at, l.at} && t.at in Cells(t)
  {
    forall p | p in Cells(t') && p != t'.at
      ensures p in (Cells(t) - {t.at}) + {l.at}
    {
      var x: Byte :| x in t'.kids && p in Cells(t'.kids[x]);
      if x != b { assert p in Cells(t.kids[x]); }
    }
    forall p | p in (Cells(t) - {t.at}) + {l.at}
      ensures p in Cells(t')
    {
      if p == l.at {
        assert p in Cells(t'.kids[b]);
      } else {
        var x: Byte :| x in t.kids && p in Cells(t.kids[x]);
        assert t'.kids[x] == t.kids[x];
      }
    }
  }

  lemma KidDroppedHolds(mem: map<Ptr, Cell>, brk: Ptr, t: Tree, b: Byte, mem2: map<Ptr, Cell>, brk2: Ptr, n: Node,
                        t': Tree)
    requires t.Inner? && b in t.kids && t.kids[b].Leaf? && Holds(mem, t) && Apart(t)
      && (forall p :: p in mem ==> p < brk)
    requires Rewritten(mem, brk, t.at, mem2, t'.at, {})
    requires t'.Inner? && t'.kids == t.kids - {b}
    requires mem2[t'.at] == NodeCell(n) && NodeHolds(n, t')
    requires brk <= brk2 && forall p :: p in mem2 ==> p < brk2
    ensures Holds(mem2, t') && Apart(t') && Step(mem, brk, t, mem2, brk2, t', {t.kids[b].at})
    ensures mem2[t.kids[b].at] == mem[t.kids[b].at]
  {
    hide NodeHolds, Step, Holds, Apart;
    HasAddress(mem, t);
    RewrittenKids(mem, brk, t, mem2, t'.at, {});
    KidsDisjoint(t);
    Assemble(mem2, n, t');
    CellsDropped(t, b, t');
    CellsAllocated(mem, t);
    KidDroppedStep(mem, brk, t, t.kids[b].at, mem2, brk2, t');
  }

  lemma KidDroppedStep(mem: map<Ptr, Cell>, brk: Ptr, t: Tree, l: Ptr, mem2: map<Ptr, Cell>, brk2: Ptr, t': Tree)
    requires Rewritten(mem, brk, t.at, mem2, t'.at, {}) && (forall p :: p in mem ==> p < brk)
    requires Cells(t') == (Cells(t) - {t.at, l}) + {t'.at} && Cells(t) <= mem.Keys
    requires t.at in Cells(t) && l in Cells(t) && l != t.at
    requires brk <= brk2 && forall p :: p in mem2 ==> p < brk2
    ensures Step(mem, brk, t, mem2, brk2, t', {l}) && mem2[l] == mem[l]
  {
    hide Cells;
  }

  lemma CellsDropped(t: Tree, b: Byte, t': Tree)
    requires t.Inner? && b in t.kids && t.kids[b].Leaf? && Apart(t)
    requires t'.Inner? && t'.kids == t.kids - {b}
    ensures Cells(t') == (Cells(t) - {t.at, t.kids[b].at}) + {t'.at}
    ensures t.at in Cells(t) && t.kids[b].at in Cells(t) && t.kids[b].at != t.at
  {
    var l := t.kids[b].at;
    assert Cells(t.kids[b]) == {l};
    forall p | p in Cells(t') && p != t'.at
      ensures p in Cells(t) - {t.at, l}
    {
      var x: Byte :| x in t'.kids && p in Cells(t'.kids[x]);
      assert p in Cells(t.kids[x]);
    }
    forall p | p in Cells(t) - {t.at, l}
      ensures p in Cells(t')
    {
      var x: Byte :| x in t.kids && p in Cells(t.kids[x]);
      assert x != b && t'.kids[x] == t.kids[x];
    }
  }

  // ----- splits -----

  /** A subtree that keeps its kids but gets another prefix, its cell rewritten in place. */
  lemma HeaderChangedHolds(mem: map<Ptr, Cell>, brk: Ptr, t: Tree, mem2: map<Ptr, Cell>, n: Node, t': Tree)
    requires t.Inner? && Holds(mem, t) && Apart(t)
    requires t'.Inner? && t' == Inner(t.at, t'.prefix, t.kids) && NodeHolds(n, t')
    requires t.at in mem2 && mem2[t.at] == NodeCell(n)
    requires forall p :: p in Cells(t) && p != t.at && p in mem ==> p in mem2 && mem2[p] == mem[p]
    ensures Holds(mem2, t') && Apart(t') && Cells(t') == Cells(t)
  {
    hide NodeHolds;
    forall x: Byte | x in t.kids
      ensures Holds(mem2, t.kids[x])
    {
      KidCells(t, x);
      HoldsFrame(mem, mem2, t.kids[x]);
    }
  }

  /** A new node over the old subtree s and a new leaf. */
  lemma ForkHolds(mem: map<Ptr, Cell>, brk: Ptr, t: Tree, mem2: map<Ptr, Cell>, brk2: Ptr, n: Node, b: Byte, s: Tree,
                  c: Byte, l: Tree, t': Tree)
    requires Cells(t) <= mem.Keys && (forall p :: p in mem ==> p < brk) && t'.at != NULL
    requires Holds(mem2, s) && Apart(s) && Cells(s) == Cells(t)
    requires l.Leaf? && Holds(mem2, l) && brk <= l.at && brk <= t'.at && l.at != t'.at && b != c
    requires t'.Inner? && t'.kids == map[b := s, c := l]
    requires t'.at in mem2 && mem2[t'.at] == NodeCell(n) && NodeHolds(n, t')
    requires mem2.Keys == mem.Keys + {t'.at, l.at}
    requires forall p :: p in mem && p !in Cells(t) ==> mem2[p] == mem[p]
    requires brk <= brk2 && forall p :: p in mem2 ==> p < brk2
    ensures Holds(mem2, t') && Apart(t') && Step(mem, brk, t, mem2, brk2, t', {})
  {
    hide NodeHolds, Holds, Apart, Step;
    LeafApart(l);
    assert Cells(l) == {l.at};
    Assemble(mem2, n, t');
    ForkCells(b, s, c, l, t');
    GrownStep(mem, brk, t, mem2, brk2, t', {t'.at, l.at});
  }

  lemma GrownStep(mem: map<Ptr, Cell>, brk: Ptr, t: Tree, mem2: map<Ptr, Cell>, brk2: Ptr, t': Tree, more: set<Ptr>)
    requires Cells(t) <= mem.Keys && (forall p :: p in mem ==> p < brk) && (forall p :: p in more ==> brk <= p)
    requires Cells(t') == more + Cells(t) && mem2.Keys == mem.Keys + more
    requires forall p :: p in mem && p !in Cells(t) ==> mem2[p] == mem[p]
    requires brk <= brk2 && forall p :: p in mem2 ==> p < brk2
    ensures Step(mem, brk, t, mem2, brk2, t', {})
  {
    hide Cells;
  }

  lemma ForkCells(b: Byte, s: Tree, c: Byte, l: Tree, t': Tree)
    requires b != c && t'.Inner? && t'.kids == map[b := s, c := l] && l.Leaf?
    ensures Cells(t') == {t'.at, l.at} + Cells(s)
  {
    forall p | p in Cells(t') && p != t'.at
      ensures p in {l.at} + Cells(s)
    {
      var x: Byte :| x in t'.kids && p in Cells(t'.kids[x]);
    }
    forall p | p in {l.at} + Cells(s)
      ensures p in Cells(t')
    {
      assert p in Cells(t'.kids[b]) || p in Cells(t'.kids[c]);
    }
  }

  // ----- a node that is left with one kid -----

  /** The kid c takes the node's place; its own cell may have got a new header. */
  lemma CollapseStep(mem: map<Ptr, Cell>, brk: Ptr, t: Tree, b: Byte, x: Byte, mem2: map<Ptr, Cell>, c: Tree)
    requires t.Inner? && b in t.kids && x in t.kids && b != x && t.kids.Keys == {b, x} && t.kids[b].Leaf?
    requires Holds(mem, t) && Apart(t) && (forall p :: p in mem ==> p < brk)
    requires Cells(c) == Cells(t.kids[x])
    requires mem2.Keys == mem.Keys - {t.at}
    requires forall p :: p in mem && p !in Cells(t) ==> mem2[p] == mem[p]
    ensures Step(mem, brk, t, mem2, brk, c, {t.kids[b].at}) && t.kids[b].at in mem && t.kids[b].at != t.at
    ensures t.kids[b].at !in Cells(t.kids[x])
  {
    hide NodeHolds, Holds, Step;
    CellsAllocated(mem, t);
    TwoKidCells(t, b, x);
    TwoKidsApart(t, b, x);
    ShrunkStep(mem, brk, t, mem2, c, t.kids[b].at);
  }

  lemma TwoKidsApart(t: Tree, b: Byte, x: Byte)
    requires t.Inner? && b in t.kids && x in t.kids && b != x && t.kids[b].Leaf? && Apart(t)
    ensures t.kids[b].at !in Cells(t.kids[x]) && t.kids[b].at != t.at && t.at !in Cells(t.kids[x])
  {
    assert t.kids[b].at in Cells(t.kids[b]);
  }

  lemma ShrunkStep(mem: map<Ptr, Cell>, brk: Ptr, t: Tree, mem2: map<Ptr, Cell>, c: Tree, l: Ptr)
    requires Cells(t) <= mem.Keys && (forall p :: p in mem ==> p < brk)
    requires Cells(t) == {t.at, l} + Cells(c) && l !in Cells(c) && l != t.at && t.at !in Cells(c)
    requires mem2.Keys == mem.Keys - {t.at}
    requires forall p :: p in mem && p !in Cells(t) ==> mem2[p] == mem[p]
    ensures Step(mem, brk, t, mem2, brk, c, {l})
  {
    hide Cells;
  }

  lemma TwoKidCells(t: Tree, b: Byte, x: Byte)
    requires t.Inner? && b in t.kids && x in t.kids && t.kids.Keys == {b, x} && t.kids[b].Leaf?
    ensures Cells(t) == {t.at, t.kids[b].at} + Cells(t.kids[x])
  {
    forall p | p in Cells(t) && p != t.at
      ensures p in Cells(t.kids[b]) || p in Cells(t.kids[x])
    {
      var y: Byte :| y in t.kids && p in Cells(t.kids[y]);
      assert y in t.kids.Keys;
    }
    KidCells(t, b);
    KidCells(t, x);
  }
}
