/** The FPTree: lookups by fingerprint, leaf splits that sort, inner splits that climb parent pointers,
    and range scans along the leaf list. */
module FpTree {
  import opened SortedPairs
  import opened KeyRanges
  import opened FpBits
  import opened FpNode
  import opened FpShape
  import L = LeafStarts
  import W = NodeWeb

  class Tree {
    var root: Ptr
    var mem: Memory
    /** The first address never handed out. */
    var brk: Ptr
    /** The keys a node covers, and the map the leaves hold. */
    ghost var info: Info
    ghost var abs: map<int, int>

    ghost predicate MemOk()
      reads this`mem, this`brk
    {
      brk > 0 && AllOk(mem) && forall p :: p in mem ==> 0 < p < brk
    }

    lemma MemFacts()
      requires MemOk()
      ensures brk > 0 && AllOk(mem) && forall p :: p in mem ==> 0 < p < brk
    {
    }

    lemma MemIs()
      requires brk > 0 && AllOk(mem) && forall p :: p in mem ==> 0 < p < brk
      ensures MemOk()
    {
    }

    ghost predicate Valid()
      reads this
    {
      && MemOk() && W.Shape(V(mem), info, map[], root) && W.Agree(V(mem), info, abs) && Chained(mem, info)
      && InRange(abs)
    }

    lemma ValidFacts()
      requires Valid()
      ensures MemOk() && AllOk(mem) && W.Shape(V(mem), info, map[], root) && W.Agree(V(mem), info, abs)
        && Chained(mem, info)
      ensures info.Keys == mem.Keys && Apart(info) && V(mem).Keys == mem.Keys && InRange(abs)
    {
      hide W.Agree, Chained, AllOk;
      W.ShapeParts(V(mem), info, map[], root);
    }

    /** `initTree` */
    constructor ()
      ensures Valid() && abs == map[] && info == map[root := Range(0, TOP, 0)]
    {
      var n := FreshLeaf();
      n := n.(next := NULL);
      root, mem, brk := 1, map[1 := n], 2;
      info, abs := map[1 := Range(0, TOP, 0)], map[];
      new;
      FirstTree(n);
    }

    // -------------------------------------------------------------- looking up

    method FindLeafNode(curr: Ptr, key: int) returns (leaf: Ptr)
      requires Valid() && W.Covers(V(mem), info, curr, key)
      ensures W.Covers(V(mem), info, leaf, key) && leaf in mem && leaf in info && info[leaf].level == 0
        && LeafOk(mem[leaf])
      decreases if curr in info then info[curr].level else 0
    {
      hide *;
      ValidFacts();
      W.CoversParts(V(mem), info, curr, key);
      W.ShapeAt(V(mem), info, map[], root, curr);
      W.NodeFitsParts(V(mem), info, curr);
      SeenAt(mem, curr);
      OkAt(mem, curr);
      var n := mem[curr];
      if n.LeafNode? { return curr; }
      InnerLive(n);
      W.DescendTo(V(mem), info, root, curr, key);
      LowerBoundKeys(Live(n), key);
      var loc := Search(n, key);
      if loc > n.nKeys - 1 {
        leaf := FindLeafNode(n.ptrs[loc - 1], key);
      } else if n.keys[loc] <= key {
        leaf := FindLeafNode(n.ptrs[loc], key);
      } else if loc == 0 {
        leaf := FindLeafNode(n.leftmost, key);
      } else {
        leaf := FindLeafNode(n.ptrs[loc - 1], key);
      }
    }

    /** The leaf that covers a key, and what it decides. */
    method FindLeaf(key: int) returns (leaf: Ptr)
      requires Valid() && 0 <= key < TOP
      ensures W.Covers(V(mem), info, leaf, key) && leaf in mem && leaf in info && info[leaf].level == 0
        && LeafOk(mem[leaf])
      ensures info[leaf].lo <= key < info[leaf].hi && KeysBetween(Live(mem[leaf]), info[leaf].lo, info[leaf].hi - 1)
      ensures LeafAgrees(Live(mem[leaf]), info[leaf].lo, info[leaf].hi, abs)
        && (key in abs <==> HasKey(Live(mem[leaf]), key))
    {
      hide *;
      ValidFacts();
      W.RootCovers(V(mem), info, root, key);
      leaf := FindLeafNode(root, key);
      W.CoversParts(V(mem), info, leaf, key);
      SeenAt(mem, leaf);
      W.LeafDecides(V(mem), info, root, abs, leaf, key);
    }

    /** The value bound to a key, else null. */
    method Lookup(key: int) returns (value: int)
      requires Valid() && 0 <= key < TOP
      ensures value == if key in abs then abs[key] else NULL
    {
      hide *;
      var curr := FindLeaf(key);
      var loc := FindInLeaf(mem[curr], key);
      if loc < 63 {
        value := mem[curr].entries[loc].tid;
        BoundHere(Live(mem[curr]), info[curr].lo, info[curr].hi, abs, mem[curr].entries[loc]);
      } else {
        value := NULL;
      }
    }

    /** Rebind a key that is bound. */
    method Update(key: int, value: int) returns (r: int)
      requires Valid() && 0 <= key < TOP
      modifies this`mem, this`abs
      ensures Valid() && abs == if key in old(abs) then old(abs)[key := value] else old(abs)
      ensures r == if key in old(abs) then value else NULL
    {
      hide *;
      var curr := FindLeaf(key);
      var loc := FindInLeaf(mem[curr], key);
      if loc < 63 {
        ValidFacts();
        MemFacts();
        BoundHere(Live(mem[curr]), info[curr].lo, info[curr].hi, abs, mem[curr].entries[loc]);
        LeafParts(mem[curr]);
        ghost var l := EntryRebound(mem[curr], loc, value);
        ghost var was := mem;
        mem := mem[curr := mem[curr].(entries := mem[curr].entries[loc := mem[curr].entries[loc].(tid := value)])];
        RebindBetween(Live(was[curr]), info[curr].lo, info[curr].hi - 1, l, value);
        RebindAgrees(Live(was[curr]), info[curr].lo, info[curr].hi, abs, l, value);
        LeafUpdated(was, mem, info, root, curr, abs, abs[key := value]);
        InRangeMore(abs, key, value);
        abs := abs[key := value];
        MemIs();
        ValidIs();
        r := mem[curr].entries[loc].tid;
      } else {
        r := NULL;
      }
    }

    lemma ValidIs()
      requires MemOk() && W.Shape(V(mem), info, map[], root) && W.Agree(V(mem), info, abs) && Chained(mem, info)
      requires InRange(abs)
      ensures Valid()
    {
    }

    // -------------------------------------------------------------- entries of one leaf

    /** `insert_in_leaf_noflush`, and `insert_in_leaf` but for its flushes: the first free place takes the entry. */
    method InsertNoFlush(p: Ptr, e: Pair) returns (index: int)
      requires p in mem && LeafOk(mem[p]) && !HasKey(Live(mem[p]), e.key)
      modifies this`mem
      ensures p in mem && LeafOk(mem[p]) && mem == old(mem)[p := mem[p]]
      ensures mem[p].LeafNode? && old(mem)[p].LeafNode?
      ensures mem[p].parent == old(mem)[p].parent && mem[p].next == old(mem)[p].next
      ensures index == -1 ==> mem == old(mem) && forall i :: 0 <= i < 63 ==> mem[p].bitmap[i]
      ensures index != -1 ==> 0 <= index < 63 && LeafSized(old(mem)[p]) && !old(mem)[p].bitmap[index]
                              && (forall i :: 0 <= i < index ==> old(mem)[p].bitmap[i])
      ensures index != -1 ==> LeafSized(old(mem)[p]) && 0 <= index < 63 && mem[p] == EntryPut(old(mem)[p], index, e)
      ensures index != -1 ==> Live(mem[p]) == PutPair(Live(old(mem)[p]), e)
    {
      LeafParts(mem[p]);
      hide *;
      var free := FreePlace(mem[p].bitmap);
      if free == 63 { return -1; }
      EntryPutLive(mem[p], free, e);
      EntryPutIs(mem[p], free, e);
      mem := mem[p := mem[p].(entries := mem[p].entries[free := e])];
      mem := mem[p := mem[p].(fingerprints := mem[p].fingerprints[free := Hash(e.key)])];
      mem := mem[p := mem[p].(bitmap := mem[p].bitmap[free := true])];
      index := free;
    }

    /** Put some of the sorted entries into a leaf without entries. */
    method PutAll(p: Ptr, sorted: array<Pair>, from: nat, end: nat)
      requires p in mem && LeafOk(mem[p]) && (forall i :: 0 <= i < 63 ==> !mem[p].bitmap[i])
      requires from <= end <= sorted.Length && end - from < 63 && Strict(sorted[..])
      modifies this`mem
      ensures p in mem && LeafOk(mem[p]) && mem == old(mem)[p := mem[p]] && old(mem)[p].LeafNode?
      ensures Live(mem[p]) == sorted[from..end] && mem[p].parent == old(mem)[p].parent
        && mem[p].next == old(mem)[p].next
      ensures from < end ==> mem[p].bitmap[0] && |mem[p].entries| == 63 && mem[p].entries[0] == sorted[from]
    {
      LeafParts(mem[p]);
      EmptyLive(mem[p]);
      hide *;
      assert sorted[from..from] == [];
      var j := from;
      while j < end
        invariant from <= j <= end && p in mem && LeafOk(mem[p]) && mem[p].LeafNode? && mem == old(mem)[p := mem[p]]
        invariant Live(mem[p]) == sorted[from..j] && mem[p].parent == old(mem)[p].parent
          && mem[p].next == old(mem)[p].next
        invariant j == from ==> !mem[p].bitmap[0]
        invariant from < j ==> mem[p].bitmap[0] && |mem[p].entries| == 63 && mem[p].entries[0] == sorted[from]
      {
        LeafParts(mem[p]);
        NextPut(sorted[..], from, j);
        assert sorted[..][from..j] == sorted[from..j] && sorted[..][from..j + 1] == sorted[from..j + 1];
        ghost var was := mem[p];
        var index := InsertNoFlush(p, sorted[j]);
        LeafParts(mem[p]);
        EntryPutIs(was, index, sorted[j]);
        j := j + 1;
      }
    }

    // -------------------------------------------------------------- a split climbs

    /** curr has been split, and its parent does not know yet. */
    ghost predicate Climbing(curr: Ptr, split: Ptr)
      reads this
    {
      && MemOk() && W.Shape(V(mem), info, map[curr := split], root) && W.Agree(V(mem), info, abs)
      && curr in mem && split in mem && curr != split
    }

    lemma ClimbingParts(curr: Ptr, split: Ptr)
      requires Climbing(curr, split)
      ensures MemOk() && W.Shape(V(mem), info, map[curr := split], root) && W.Agree(V(mem), info, abs)
      ensures curr in mem && split in mem && curr != split && AllOk(mem) && V(mem).Keys == mem.Keys == info.Keys
      ensures brk > 0 && forall p :: p in mem ==> 0 < p < brk
    {
      hide W.Agree, AllOk;
      W.ShapeParts(V(mem), info, map[curr := split], root);
    }

    lemma ClimbingIs(curr: Ptr, split: Ptr)
      requires MemOk() && W.Shape(V(mem), info, map[curr := split], root) && W.Agree(V(mem), info, abs)
      requires curr in mem && split in mem && curr != split
      ensures Climbing(curr, split)
    {
    }

    method AllocInner() returns (p: Ptr)
      requires MemOk()
      modifies this`mem, this`brk
      ensures MemOk() && p !in old(mem) && p in mem && mem == old(mem)[p := mem[p]]
      ensures InnerOk(mem[p]) && mem[p].InnerNode? && mem[p].nKeys == 0
    {
      hide *;
      MemFacts();
      var n := FreshInner();
      ghost var was := mem;
      p := brk;
      mem, brk := mem[p := n], brk + 1;
      AllOkMore(was, p, n);
      MemIs();
    }

    /** `insert_in_inner`, and the parent of the new child. */
    method PutChild(p: Ptr, key: int, child: Ptr)
      requires p in mem && child in mem && p != child && InnerOk(mem[p]) && Strict(Live(mem[p])) && mem[p].InnerNode?
      requires mem[p].nKeys < 254
      modifies this`mem
      ensures p in mem && mem[p].InnerNode? && old(mem)[p].InnerNode? && InnerOk(mem[p])
      ensures mem[p] == old(mem)[p].(nKeys := old(mem)[p].nKeys + 1, keys := mem[p].keys, ptrs := mem[p].ptrs)
      ensures Live(mem[p]) == PutPair(Live(old(mem)[p]), Pair(key, child))
      ensures mem == old(mem)[p := mem[p]][child := old(mem)[child].(parent := p)]
    {
      hide *;
      var n := InsertInInner(mem[p], key, child);
      InnerLive(n);
      mem := mem[p := n];
      mem := mem[child := mem[child].(parent := p)];
    }

    /** A node with the leftmost child curr and one key. */
    method FillRoot(r: Ptr, curr: Ptr, key: int, split: Ptr)
      requires r in mem && mem[r].InnerNode? && InnerOk(mem[r]) && mem[r].nKeys == 0
      modifies this`mem
      ensures r in mem && mem == old(mem)[r := mem[r]] && mem[r].InnerNode? && InnerOk(mem[r])
      ensures Live(mem[r]) == [Pair(key, split)] && mem[r].leftmost == curr
    {
      InnerLive(mem[r]);
      hide *;
      mem := mem[r := mem[r].(leftmost := curr)];
      mem := mem[r := mem[r].(keys := mem[r].keys[0 := key])];
      mem := mem[r := mem[r].(ptrs := mem[r].ptrs[0 := split])];
      mem := mem[r := mem[r].(nKeys := mem[r].nKeys + 1)];
      OneKey(mem[r], key, split);
    }

    /** A new root over the split one. */
    method GrowRoot(curr: Ptr, key: int, split: Ptr)
      requires Climbing(curr, split) && curr == root && split in info && key == info[split].lo
      modifies this`mem, this`brk, this`info, this`root
      ensures MemOk() && W.Shape(V(mem), info, map[], root) && W.Agree(V(mem), info, abs)
      ensures LeavesKept(old(mem), old(info), mem, info)
    {
      hide *;
      ClimbingParts(curr, split);
      ghost var was, info0 := mem, info;
      var r := AllocInner();
      MemFacts();
      FillRoot(r, curr, key, split);
      ghost var R := mem[r];
      mem := mem[split := mem[split].(parent := r)];
      mem := mem[curr := mem[curr].(parent := r)];
      RootGrown(was, mem, info, curr, split, r, R);
      root := r;
      info := info[r := Range(0, TOP, info[curr].level + 1)];
      AgreeKept(was, info0, mem, info, abs);
      MemIs();
    }

    /** The loop that moves the upper half of the keys, and the children right of them, to a new node. */
    method MoveKids(parent: Ptr, sp: Ptr)
      requires parent in mem && sp in mem && parent != sp
      requires InnerOk(mem[parent]) && mem[parent].InnerNode? && mem[parent].nKeys == 254
      requires InnerOk(mem[sp]) && mem[sp].InnerNode? && mem[sp].nKeys == 0
      requires |mem[parent].ptrs| == 254
      requires forall k :: 127 <= k < 254 ==>
        mem[parent].ptrs[k] in mem && mem[parent].ptrs[k] != parent && mem[parent].ptrs[k] != sp
      modifies this`mem
      ensures KidsMoved(old(mem), mem, parent, sp, 127)
    {
      hide *;
      NoKidsMoved(mem, parent, sp);
      ghost var ptrs := mem[parent].ptrs;
      var i, j, parentKeys := 0, 127, mem[parent].nKeys;
      while j < parentKeys
        invariant i <= 127 && j == 127 + i && KidsMoved(old(mem), mem, parent, sp, i)
      {
        KidsMovedParts(old(mem), mem, parent, sp, i);
        ghost var was := mem;
        assert was[parent].ptrs[j] == ptrs[j];
        MoveKid(parent, sp, i, j);
        KidsMovedMore(old(mem), was, mem, parent, sp, i);
        i, j := i + 1, j + 1;
      }
    }

    method MoveKid(parent: Ptr, sp: Ptr, i: nat, j: nat)
      requires parent in mem && sp in mem && parent != sp && i < 127 && j < 254
      requires mem[parent].InnerNode? && |mem[parent].keys| == 254 == |mem[parent].ptrs| && mem[parent].nKeys > 0
      requires mem[sp].InnerNode? && |mem[sp].keys| == 254 == |mem[sp].ptrs| && mem[sp].nKeys == i
      requires var child := mem[parent].ptrs[j]; child in mem && child != parent && child != sp
      modifies this`mem
      ensures var was, child := old(mem), old(mem)[parent].ptrs[j];
        mem == was[sp := was[sp].(keys := was[sp].keys[i := was[parent].keys[j]],
                                  ptrs := was[sp].ptrs[i := child], nKeys := i + 1)]
                  [child := was[child].(parent := sp)]
                  [parent := was[parent].(nKeys := was[parent].nKeys - 1)]
    {
      ghost var was := mem;
      mem := mem[sp := mem[sp].(keys := mem[sp].keys[i := mem[parent].keys[j]])];
      mem := mem[sp := mem[sp].(ptrs := mem[sp].ptrs[i := mem[parent].ptrs[j]])];
      ghost var moved := mem[sp];
      StoredTwice(was, sp, was[sp].(keys := was[sp].keys[i := was[parent].keys[j]]), moved);
      var child := mem[sp].ptrs[i];
      mem := mem[child := mem[child].(parent := sp)];
      mem := mem[sp := mem[sp].(nKeys := mem[sp].nKeys + 1)];
      StoredAround(was, sp, moved, child, was[child].(parent := sp), moved.(nKeys := moved.nKeys + 1));
      mem := mem[parent := mem[parent].(nKeys := mem[parent].nKeys - 1)];
    }

    /** A full parent is cut; the new kid goes to the half that covers its key; the new half is pending in turn. */
    method SplitParent(curr: Ptr, key: int, split: Ptr, parent: Ptr) returns (sp: Ptr, key': int)
      requires Climbing(curr, split) && curr != root && split in info && key == info[split].lo
      requires curr in mem && parent == mem[curr].parent
      requires parent in mem && mem[parent].InnerNode? && mem[parent].nKeys == 254
      modifies this`mem, this`brk, this`info
      ensures Climbing(parent, sp) && sp in info && key' == info[sp].lo && LeavesKept(old(mem), old(info), mem, info)
      ensures curr in old(info) && parent in info && info[parent].level == old(info)[curr].level + 1
      ensures root in info && root in old(info) && info[root].level == old(info)[root].level
    {
      hide *;
      ClimbingParts(curr, split);
      MemFacts();
      ghost var mem0, info0 := mem, info;
      ghost var pends: Pends := map[curr := split];
      OnePend(curr, split);
      ParentFacts(mem0, info0, curr, split, root);
      FullParent(mem0, info0, pends, root, parent);
      sp := AllocInner();
      MemFacts();
      ghost var mem1 := mem;
      MoveKids(parent, sp);
      ghost var mem2 := mem;
      KidsMovedParts(mem1, mem2, parent, sp, 127);
      CutFacts(mem0, mem1, mem2, info0, pends, root, parent, sp, curr);
      info := W.InfoAfter(V(mem0), info0, parent, sp, 127);
      ghost var pends2: Pends := pends[parent := sp];
      TwoPends(curr, split, parent, sp);
      ghost var q := mem[curr].parent;
      HalfForKey(mem2, info, pends2, root, curr, q);
      InnerLive(mem[sp]);
      InnerLive(mem[parent]);
      if mem[sp].keys[0] > key {
        PutChild(parent, key, split);
      } else {
        PutChild(sp, key, split);
      }
      InnerLive(mem[q]);
      PutFirst(Live(mem2[q]), Pair(key, split));
      PutStrict(Live(mem2[q]), Pair(key, split));
      ChildPut(mem2, mem, info, pends2, root, curr, mem[q]);
      LeavesKeptTwice(mem0, info0, mem2, info, mem, info);
      AgreeKept(mem0, info0, mem, info, abs);
      InnerLive(mem[sp]);
      key' := mem[sp].keys[0];
      RootTop(info0, pends, root);
      MemIs();
      ClimbingIs(parent, sp);
    }

    /** `insert_in_parent`: tell the parent of a split node, splitting upwards as far as needed. */
    method InsertInParent(curr: Ptr, key: int, split: Ptr)
      requires Climbing(curr, split) && split in info && key == info[split].lo
      modifies this`mem, this`brk, this`info, this`root
      ensures MemOk() && W.Shape(V(mem), info, map[], root) && W.Agree(V(mem), info, abs)
      ensures LeavesKept(old(mem), old(info), mem, info)
      decreases if root in info && curr in info && info[root].level >= info[curr].level
                then info[root].level - info[curr].level else 0
    {
      hide *;
      ClimbingParts(curr, split);
      if curr == root {
        GrowRoot(curr, key, split);
        return;
      }
      ghost var mem0, info0 := mem, info;
      OnePend(curr, split);
      ParentFacts(mem0, info0, curr, split, root);
      RootTop(info0, map[curr := split], root);
      var parent := mem[curr].parent;
      InnerLive(mem[parent]);
      if mem[parent].nKeys < 254 {
        PutChild(parent, key, split);
        InnerLive(mem[parent]);
        PutStrict(Live(mem0[parent]), Pair(key, split));
        ChildPut(mem0, mem, info, map[curr := split], root, curr, mem[parent]);
        AgreeKept(mem0, info, mem, info, abs);
        MemIs();
      } else {
        var sp, key' := SplitParent(curr, key, split, parent);
        ghost var mem1, info1 := mem, info;
        InsertInParent(parent, key', sp);
        LeavesKeptTwice(mem0, info0, mem1, info1, mem, info);
      }
    }

    // -------------------------------------------------------------- insertion

    method AllocLeaf() returns (p: Ptr)
      requires MemOk()
      modifies this`mem, this`brk
      ensures MemOk() && p !in old(mem) && p in mem && mem == old(mem)[p := mem[p]]
      ensures mem[p].LeafNode? && LeafOk(mem[p]) && forall i :: 0 <= i < 63 ==> !mem[p].bitmap[i]
    {
      hide *;
      MemFacts();
      var n := FreshLeaf();
      EmptyLive(n);
      LeafIsOk(n);
      ghost var was := mem;
      p := brk;
      mem, brk := mem[p := n], brk + 1;
      AllOkMore(was, p, n);
      MemIs();
    }

    /** The entries of a full leaf, sorted. */
    method SortedEntries(leaf: Ptr) returns (valid: array<Pair>)
      requires leaf in mem && LeafOk(mem[leaf]) && forall i :: 0 <= i < 63 ==> mem[leaf].bitmap[i]
      ensures fresh(valid) && valid.Length == 63 && valid[..] == Live(mem[leaf]) && Strict(valid[..])
    {
      LeafParts(mem[leaf]);
      ghost var entries := mem[leaf].entries;
      FullDistinct(mem[leaf]);
      hide *;
      valid := new Pair[63];
      var j := 0;
      while j < 63
        invariant j <= 63 && valid[..j] == entries[..j]
      {
        valid[j] := mem[leaf].entries[j];
        j := j + 1;
      }
      assert valid[..63] == valid[..] && entries[..63] == entries;
      InsertionSort(valid, 63);
      assert valid[..63] == valid[..];
      FullSorted(mem[leaf], valid[..]);
    }

    /** Share the entries of a full leaf, sorted, between it and a new leaf, and put that behind it. */
    method CutLeaf(leaf: Ptr) returns (split: Ptr)
      requires MemOk() && leaf in mem && LeafOk(mem[leaf]) && forall i :: 0 <= i < 63 ==> mem[leaf].bitmap[i]
      modifies this`mem, this`brk
      ensures MemOk() && split !in old(mem) && split in mem && leaf in mem
      ensures mem == old(mem)[leaf := mem[leaf]][split := mem[split]]
      ensures LeafOk(mem[leaf]) && LeafOk(mem[split]) && mem[leaf].LeafNode? && mem[split].LeafNode?
        && old(mem)[leaf].LeafNode?
      ensures |Live(old(mem)[leaf])| == 63
      ensures Live(mem[leaf]) == Live(old(mem)[leaf])[..31] && Live(mem[split]) == Live(old(mem)[leaf])[31..]
      ensures mem[leaf].parent == old(mem)[leaf].parent && mem[leaf].next == old(mem)[leaf].next
      ensures mem[split].next == old(mem)[leaf].next
      ensures |mem[split].entries| == 63 && mem[split].entries[0] == Live(mem[split])[0]
      ensures mem[split].bitmap[0]
    {
      LeafParts(mem[leaf]);
      hide *;
      MemFacts();
      ghost var was := mem;
      split := AllocLeaf();
      MemFacts();
      NextSet(mem[split], mem[leaf].next);
      mem := mem[split := mem[split].(next := mem[leaf].next)];
      ghost var mid := mem;
      FillHalves(leaf, split);
      LeafParts(mem[split]);
      LeafIsOk(mem[leaf]);
      LeafIsOk(mem[split]);
      AllOkTwo(was, mem, leaf, split);
      MemSame(mid);
    }

    /** Distribute the sorted entries of a full leaf. */
    method FillHalves(leaf: Ptr, split: Ptr)
      requires leaf in mem && LeafOk(mem[leaf]) && forall i :: 0 <= i < 63 ==> mem[leaf].bitmap[i]
      requires split in mem && split != leaf && LeafOk(mem[split]) && forall i :: 0 <= i < 63 ==> !mem[split].bitmap[i]
      modifies this`mem
      ensures leaf in mem && split in mem && mem == old(mem)[leaf := mem[leaf]][split := mem[split]]
      ensures LeafOk(mem[leaf]) && LeafOk(mem[split]) && mem[leaf].LeafNode? && mem[split].LeafNode?
      ensures old(mem)[leaf].LeafNode? && old(mem)[split].LeafNode? && |Live(old(mem)[leaf])| == 63
      ensures Live(mem[leaf]) == Live(old(mem)[leaf])[..31] && Live(mem[split]) == Live(old(mem)[leaf])[31..]
      ensures mem[leaf].parent == old(mem)[leaf].parent && mem[leaf].next == old(mem)[leaf].next
      ensures mem[split].next == old(mem)[split].next
      ensures |mem[split].entries| == 63 && mem[split].bitmap[0] && mem[split].entries[0] == Live(mem[split])[0]
    {
      LeafParts(mem[leaf]);
      hide *;
      var valid := SortedEntries(leaf);
      Cleared(mem[leaf]);
      mem := mem[leaf := mem[leaf].(bitmap := seq(64, _ => false))];
      PutAll(leaf, valid, 0, 31);
      PutAll(split, valid, 31, 63);
      assert valid[0..31] == valid[..][..31] && valid[31..63] == valid[..][31..];
    }

    lemma MemSame(was: Memory)
      requires brk > 0 && AllOk(mem) && mem.Keys == was.Keys && forall p :: p in was ==> 0 < p < brk
      ensures MemOk()
    {
    }

    /** The new entry goes into the half of a split leaf that covers its key. */
    method PutInHalf(leaf: Ptr, split: Ptr, e: Pair)
      requires AllOk(mem) && W.Shape(V(mem), info, map[leaf := split], root) && W.Agree(V(mem), info, abs)
      requires leaf in mem && split in mem && leaf != split && leaf in info && split in info
      requires info[leaf].level == 0 == info[split].level
      requires info[leaf].hi == info[split].lo && info[leaf].lo <= e.key < info[split].hi && e.key !in abs
      requires LeafOk(mem[leaf]) && LeafOk(mem[split]) && |Live(mem[leaf])| < 63 && |Live(mem[split])| < 63
      requires mem[split].LeafNode? && |mem[split].entries| == 63 && mem[split].bitmap[0]
      requires info[split].lo == mem[split].entries[0].key
      modifies this`mem
      ensures AllOk(mem) && W.Shape(V(mem), info, map[leaf := split], root)
        && W.Agree(V(mem), info, abs[e.key := e.tid])
      ensures leaf in mem && split in mem && mem == old(mem)[leaf := mem[leaf]][split := mem[split]]
      ensures LeafOk(mem[leaf]) && LeafOk(mem[split]) && old(mem)[leaf].LeafNode?
      ensures mem[leaf].LeafNode? && mem[split].LeafNode? && |mem[split].entries| == 63
      ensures mem[split].next == old(mem)[split].next && mem[split].entries[0] == old(mem)[split].entries[0]
    {
      hide *;
      ghost var was := mem;
      var half := if mem[split].entries[0].key > e.key then leaf else split;
      HalfReady(mem, info, leaf, split, root, half, abs, e);
      PutEntry(half, e);
      EntryAddedParts(was[half], mem[half], e);
      HalfPut(was, mem, info, leaf, split, root, half, abs, e);
      HalvesAfter(was, mem, leaf, split, half, e);
    }

    /** The same insertion, for a leaf with room. */
    method PutEntry(p: Ptr, e: Pair)
      requires p in mem && LeafOk(mem[p]) && !HasKey(Live(mem[p]), e.key) && |Live(mem[p])| < 63
      modifies this`mem
      ensures p in mem && mem == old(mem)[p := mem[p]] && EntryAdded(old(mem)[p], mem[p], e)
    {
      LeafParts(mem[p]);
      HasRoom(mem[p]);
      ghost var was := mem[p];
      hide *;
      var index := InsertNoFlush(p, e);
      EntryPutIs(was, index, e);
      EntryAddedIs(was, mem[p], e);
    }

    /** Insert into a full leaf: split it, put the entry into one of the halves, and tell the parents. */
    method InsertBySplit(leaf: Ptr, key: int, value: int)
      requires Valid() && W.Covers(V(mem), info, leaf, key) && key !in abs && 0 <= key < TOP
      requires leaf in mem && leaf in info && info[leaf].level == 0 && LeafOk(mem[leaf])
      requires forall i :: 0 <= i < 63 ==> mem[leaf].bitmap[i]
      modifies this
      ensures Valid() && abs == old(abs)[key := value]
      ensures |Live(old(mem)[leaf])| == 63 && L.LeafParted(old(info), info, leaf, Live(old(mem)[leaf])[31].key)
    {
      hide *;
      ValidFacts();
      ghost var mem0, info0, abs0 := mem, info, abs;
      var e := Pair(key, value);
      W.CoversParts(V(mem), info, leaf, key);
      var split := CutLeaf(leaf);
      ghost var mem1 := mem;
      MemFacts();
      LeafCutFacts(mem0, mem1, info0, root, leaf, split, abs0);
      info := W.InfoAfter(V(mem0), info0, leaf, split, 31);
      ghost var info1 := info;
      LeafParts(mem[split]);
      ghost var first := mem[split].entries[0];
      assert first == Live(mem0[leaf])[31..][0] == Live(mem0[leaf])[31];
      PutInHalf(leaf, split, e);
      ghost var mem2 := mem;
      InRangeMore(abs, key, value);
      abs := abs[key := value];
      MemSame(mem1);
      ClimbingIs(leaf, split);
      InsertInParent(leaf, mem[split].entries[0].key, split);
      ghost var mem3 := mem;
      MemFacts();
      KeptLeaf(mem2, info1, mem3, info, leaf);
      NextSet(mem[leaf], split);
      mem := mem[leaf := mem[leaf].(next := split)];
      NextStored(mem3, mem, leaf, split);
      ChainAfter(mem0, info0, mem2, info1, mem3, info, mem, leaf, split, first.key);
      MemSame(mem3);
      ValidIs();
      ValidFacts();
      LeafPartedIs(mem0, mem2, mem3, info0, info1, info, leaf, split, first.key);
    }

    /** Insert a key that is not bound.  A full leaf is parted at its 32nd key; otherwise the leaf that covers the
        key gets the entry, and the leaves stay. */
    method Insert(key: int, value: int) returns (ghost leaf: Ptr)
      requires Valid() && 0 <= key < TOP && key !in abs
      modifies this
      ensures Valid() && abs == old(abs)[key := value]
      ensures W.Covers(V(old(mem)), old(info), leaf, key) && leaf in old(mem) && leaf in old(info)
        && old(info)[leaf].level == 0 && |Live(old(mem)[leaf])| <= 63
      ensures |Live(old(mem)[leaf])| < 63 ==>
        info == old(info) && root == old(root) && leaf in mem
        && Live(mem[leaf]) == PutPair(Live(old(mem)[leaf]), Pair(key, value))
      ensures |Live(old(mem)[leaf])| == 63 ==> L.LeafParted(old(info), info, leaf, Live(old(mem)[leaf])[31].key)
    {
      hide *;
      var curr := FindLeaf(key);
      leaf := curr;
      LeafParts(mem[curr]);
      FullIs(mem[curr]);
      if mem[curr].bitmap == IS_FULL {
        InsertBySplit(curr, key, value);
      } else {
        ValidFacts();
        MemFacts();
        ghost var was := mem;
        NotAllSet(mem[curr]);
        PutEntry(curr, Pair(key, value));
        EntryAddedParts(was[curr], mem[curr], Pair(key, value));
        PutBetweenKeys(Live(was[curr]), info[curr].lo, info[curr].hi - 1, Pair(key, value));
        PutAgrees(Live(was[curr]), info[curr].lo, info[curr].hi, abs, Pair(key, value));
        LeafUpdated(was, mem, info, root, curr, abs, abs[key := value]);
        InRangeMore(abs, key, value);
        abs := abs[key := value];
        MemSame(was);
        ValidIs();
      }
    }

    // -------------------------------------------------------------- range scans

    /** The valid entries of a leaf, gathered by the bitmap and sorted. */
    method GatherLeaf(curr: Ptr, sorted: array<Pair>) returns (entryNum: nat)
      requires curr in mem && LeafOk(mem[curr]) && sorted.Length == 63
      modifies sorted
      ensures entryNum <= 63 && sorted[..entryNum] == Live(mem[curr])
    {
      LeafParts(mem[curr]);
      var n := mem[curr];
      NothingGathered(n, sorted[..0]);
      hide *;
      var loc := 0;
      entryNum := 0;
      while loc < 63
        invariant loc <= 63 && entryNum <= loc && Gathered(n, loc, sorted[..entryNum])
      {
        ghost var was := loc;
        loc := FindNextBit([n.bitmap], 63, loc);
        NextIs(n.bitmap, was, true, loc);
        GatheredSkip(n, was, loc, sorted[..entryNum]);
        if loc == 63 { break; }
        GatheredMore(n, loc, sorted[..entryNum]);
        sorted[entryNum] := n.entries[loc];
        assert sorted[..entryNum + 1] == sorted[..entryNum] + [n.entries[loc]];
        loc, entryNum := loc + 1, entryNum + 1;
      }
      ghost var found := sorted[..entryNum];
      InsertionSort(sorted, entryNum);
      GatheredSorted(n, found, sorted[..entryNum]);
    }

    /** The values of sorted entries go to the buffer until it is full. */
    method CopyValues(sorted: array<Pair>, entryNum: nat, num: nat, buf0: seq<int>, ghost before: seq<Pair>,
                      ghost live: seq<Pair>)
      returns (buf: seq<int>, ghost es: seq<Pair>, ghost i: nat)
      requires entryNum <= sorted.Length && sorted[..entryNum] == live && buf0 == Tids(before) && |buf0| < num
      ensures i <= |live| && es == before + live[..i] && buf == Tids(es) && |buf| <= num
      ensures (|buf| < num ==> i == |live|) && (|buf| == num ==> i > 0)
    {
      buf, es := buf0, before;
      var k := 0;
      i := 0;
      while k < entryNum
        invariant i == k <= entryNum && |buf| < num && es == before + live[..k] && buf == Tids(es)
      {
        assert sorted[..entryNum][k] == sorted[k];
        assert live[..k + 1] == live[..k] + [live[k]];
        buf := buf + [sorted[k].tid];
        es := es + [live[k]];
        k, i := k + 1, k + 1;
        if |buf| == num { return; }
      }
    }

    /** `Range_Lookup`: from the first entry of the leaf that covers the start key, along the leaf list. */
    method RangeLookup(start: int, num: nat) returns (buf: seq<int>, ghost leaf: Ptr, ghost es: seq<Pair>)
      requires Valid() && 0 <= start < TOP && num >= 1
      ensures W.Covers(V(mem), info, leaf, start) && leaf in info && info[leaf].level == 0 && leaf in mem
      ensures buf == Tids(es) && FirstFrom(abs, info[leaf].lo, num, es)
      ensures FirstFrom(abs, start, num, es) <==> forall k :: info[leaf].lo <= k < start ==> k !in abs
      ensures Live(mem[leaf]) != [] ==> buf != [] && buf[0] == Live(mem[leaf])[0].tid
    {
      hide *;
      ValidFacts();
      MemFacts();
      var curr := FindLeaf(start);
      leaf := curr;
      NullIsZero();
      ghost var lo, end := info[curr].lo, info[curr].lo;
      es := [];
      LeafFacts(mem, info, root, abs, curr);
      var sorted := new Pair[63];
      buf := [];
      ScanStart(abs, lo);
      while curr != NULL
        invariant curr != NULL ==> curr in mem && curr in info && info[curr].level == 0 && lo <= info[curr].lo
        invariant end == (if curr == NULL then TOP else info[curr].lo) && Scanned(abs, lo, end, es)
        invariant buf == Tids(es) && |buf| < num
        invariant curr == leaf ==> es == []
        invariant curr != leaf && Live(mem[leaf]) != [] ==> es != [] && es[0] == Live(mem[leaf])[0]
        invariant curr != NULL ==> info[curr].lo <= TOP
        decreases if curr == NULL then 0 else TOP - info[curr].lo + 1
      {
        LeafFacts(mem, info, root, abs, curr);
        ghost var live, before := Live(mem[curr]), es;
        var entryNum := GatherLeaf(curr, sorted);
        ghost var i;
        buf, es, i := CopyValues(sorted, entryNum, num, buf, before, live);
        if |buf| == num {
          ScanFull(abs, lo, info[curr].lo, info[curr].hi, before, live, i, num, es);
          RangeFromStart(abs, lo, start, num, es);
          return;
        }
        assert live[..i] == live;
        ScanLeaf(abs, lo, info[curr].lo, info[curr].hi, before, live);
        curr, end := mem[curr].next, info[curr].hi;
      }
      ScanAll(abs, lo, es, num);
      RangeFromStart(abs, lo, start, num, es);
    }
  }
}
