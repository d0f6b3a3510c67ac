/** The adaptive radix tree as a data structure: `art_search`, `art_insert` and `art_delete`. */
module Art {
  import opened ArtNode
  import opened ArtShape
  import opened ArtTree
  import opened ArtProofs
  import opened ArtOrder

  /** A fresh Node4 with two children, as both splits build it. */
  method ForkNode(partialLen: nat, partial: seq<Byte>, b: Byte, p: Ptr, c: Byte, q: Ptr) returns (n: Node)
    requires |partial| == MAX_PREFIX_LEN && b != c && p != NULL && q != NULL
    ensures NodeOk(n) && n.partialLen == partialLen && Stored(n) == partial[..Min(partialLen, MAX_PREFIX_LEN)]
    ensures Kids(n) == map[b := p, c := q] && Sized(n) && n.kind.Kind4? && Ascends(n)
  {
    hide Kids, LayoutOk, Ascends, ListAdded, Added;
    n := AllocNode(Kind4).(partialLen := partialLen, partial := partial);
    NoKids(n);
    NoListYet(n);
    var n1 := AddChild4(n, b, p);
    AddedFacts(n, n1, b, p);
    FourInOrder(n, n1, b, p);
    assert |Kids(n1)| == 1;
    var n2 := AddChild4(n1, c, q);
    AddedFacts(n1, n2, c, q);
    FourInOrder(n1, n2, c, q);
    assert |Kids(n2)| == 2;
    n := n2;
  }

  lemma NoListYet(n: Node)
    requires Sized(n) && n.kind.Kind4? && n.numChildren == 0
    ensures IsList(n) && Ascends(n)
  {
  }

  lemma FourInOrder(n: Node, r: Node, c: Byte, child: Ptr)
    requires LayoutOk(n) && IsList(n) && Sized(n) && Ascends(n) && c !in Kids(n) && ListAdded(n, r, c, child, false)
    ensures Ascends(r) && IsList(r)
  {
    hide Kids, LayoutOk, Ascends;
    AbsentFromList(n, c);
    AddKeepsOrder(n, r, c, child, false);
    var idx: nat :| Inserted(n, r, idx, c, child) && IsPlace(n, idx, c, false);
  }

  class RadixMap {
    var root: Ptr
    var size: nat
    var mem: map<Ptr, Cell>
    var brk: Ptr
    ghost var tree: Option<Tree>

    /** Addresses are handed out in ascending order and never reused. */
    ghost predicate MemOk()
      reads this`mem, this`brk
    {
      0 < brk && forall p :: p in mem ==> 0 < p < brk
    }

    ghost predicate Valid()
      reads this
    {
      && MemOk()
      && match tree
         case None => root == NULL && mem == map[] && size == 0
         case Some(t) =>
           && root == t.at && Stands(mem, t, [])
           && mem.Keys == Cells(t)
           && size == |Entries(t)|
    }

    ghost function Contents(): set<Entry>
      reads this
    {
      match tree case None => {} case Some(t) => Entries(t)
    }

    constructor ()
      ensures Valid() && Contents() == {} && tree.None? && TidyMem(mem)
    {
      root, size, mem, brk := NULL, 0, map[], 1;
      tree := None;
    }

    // ----- reading -----

    /** The byte of the key at `depth`; past the end of the key any byte may be found there. */
    method KeyByte(key: Key, depth: nat) returns (c: Byte)
      ensures depth < |key| ==> c == key[depth]
    {
      if depth < |key| { c := key[depth]; } else { c := *; }
    }

    /** `check_prefix`: how many stored prefix bytes the key matches. */
    method CheckPrefix(n: Node, key: Key, depth: nat) returns (idx: nat)
      requires Sized(n)
      ensures idx <= |Stored(n)|
      ensures idx == |Stored(n)| ==> depth + idx <= |key| || idx == 0
      ensures forall i :: 0 <= i < idx ==> depth + i < |key| && key[depth + i] == Stored(n)[i]
      ensures idx < |Stored(n)| && depth + idx < |key| ==> key[depth + idx] != Stored(n)[idx]
    {
      var maxCmp := Min(Min(n.partialLen, MAX_PREFIX_LEN), |key| - depth);
      idx := 0;
      while idx < maxCmp && n.partial[idx] == key[depth + idx]
        invariant 0 <= idx <= |Stored(n)|
        invariant idx <= maxCmp || idx == 0
        invariant forall i :: 0 <= i < idx ==> depth + i < |key| && key[depth + i] == Stored(n)[i]
      {
        idx := idx + 1;
      }
    }

    /** `art_search` */
    method Search(key: Key) returns (r: Option<Value>)
      requires Valid()
      ensures r.Some? <==> HasKey(Contents(), key)
      ensures r.Some? ==> (key, r.value) in Contents()
    {
      hide *;
      var n := root;
      if n == NULL { EmptyFacts(); return None; }
      RootFacts();
      r := SearchFrom(n, key, tree.value);
    }

    lemma EmptyFacts()
      requires Valid() && root == NULL
      ensures tree.None? && Contents() == {} && mem == map[] && size == 0 && forall k :: !HasKey(Contents(), k)
    {
    }

    lemma RootFacts()
      requires Valid() && root != NULL
      ensures tree.Some? && root == tree.value.at && root in mem && Stands(mem, tree.value, [])
      ensures Contents() == Entries(tree.value) && mem.Keys == Cells(tree.value) && size == |Contents()|
      ensures MemOk()
    {
      hide Cells, Apart, Shaped, Entries, NodeHolds;
    }

    /** The descent of `art_search` from the root cell. */
    method SearchFrom(start: Ptr, key: Key, ghost whole: Tree) returns (r: Option<Value>)
      requires Stands(mem, whole, []) && start == whole.at && start in mem
      ensures r.Some? <==> HasKey(Entries(whole), key)
      ensures r.Some? ==> (key, r.value) in Entries(whole)
    {
      hide *;
      var n := start;
      var depth := 0;
      ghost var t := whole;
      ghost var path: Key := [];
      while mem[n].NodeCell?
        invariant Stands(mem, t, path) && n == t.at && n in mem && depth == |path|
        invariant Entries(t) <= Entries(whole)
        invariant HasKey(Entries(whole), key) ==> HasKey(Entries(t), key)
        decreases t
      {
        InnerFacts(mem, t, path);
        var node := mem[n].node;
        if node.partialLen > 0 {
          var matched := CheckPrefix(node, key, depth);
          if matched != Min(MAX_PREFIX_LEN, node.partialLen) {
            MismatchMeansAbsent(t, path, key, node, matched);
            return None;
          }
          depth := depth + node.partialLen;
        }
        var c := KeyByte(key, depth);
        var slot := FindChild(node, c);
        OnlyThisKid(t, path, key, c);
        if slot == -1 { return None; }
        KidStands(mem, t, path, c);
        n := node.children[slot];
        t, path := t.kids[c], path + t.prefix + [c];
        depth := depth + 1;
      }
      LeafFacts(mem, t, path);
      r := if mem[n].key == key then Some(mem[n].value) else None;
      LeafAnswer(t, Entries(whole), key);
    }

    // ----- inserting -----

    method Alloc(c: Cell) returns (p: Ptr)
      requires MemOk()
      modifies this`mem, this`brk
      ensures p == old(brk) && p !in old(mem) && p != NULL
      ensures mem == old(mem)[p := c] && brk == p + 1 && MemOk()
    {
      p := brk;
      mem := mem[p := c];
      brk := brk + 1;
    }

    /** `minimum`: the first leaf below a node.  It holds the least key exactly if on the way to it every node has
        its least key byte first. */
    method Minimum(n: Ptr, ghost t: Tree, ghost path: Key) returns (l: Ptr, ghost e: Entry)
      requires Stands(mem, t, path) && n == t.at && n in mem
      ensures l in mem && mem[l] == LeafCell(e.0, e.1) && e in Entries(t)
      ensures FirstIsLeast(mem, t) <==> IsLeast(Entries(t), e)
      decreases t
    {
      hide *;
      if mem[n].NodeCell? {
        InnerFacts(mem, t, path);
        ghost var c;
        var p;
        c, p := FirstChild(mem[n].node);
        KidStands(mem, t, path, c);
        l, e := Minimum(p, t.kids[c], path + t.prefix + [c]);
        FirstOf(mem[n].node, c);
        FirstBelow(mem, t, c);
        LeastBelow(t, path, c, e);
      } else {
        LeafFacts(mem, t, path);
        l, e := n, (t.key, t.value);
        LeafIsLeast(mem, t, e);
      }
    }

    /** `art_minimum` */
    method First() returns (r: Option<Entry>)
      requires Valid()
      ensures r.None? <==> Contents() == {}
      ensures r.Some? ==> tree.Some? && r.value in Contents()
      ensures r.Some? ==> (FirstIsLeast(mem, tree.value) <==> IsLeast(Contents(), r.value))
      ensures r.Some? && TidyMem(mem) ==> IsLeast(Contents(), r.value)
    {
      hide *;
      if root == NULL { EmptyFacts(); return None; }
      RootFacts();
      var l;
      ghost var e;
      l, e := Minimum(root, tree.value, []);
      r := Some((mem[l].key, mem[l].value));
      if TidyMem(mem) { TidyFirst(mem, tree.value, []); }
    }

    /** `prefix_mismatch`: how far the key follows the prefix of a node, beyond the stored part too. */
    method PrefixMismatch(n: Ptr, key: Key, depth: nat, ghost t: Tree, ghost path: Key) returns (idx: nat)
      requires Stands(mem, t, path) && n == t.at && n in mem && mem[n].NodeCell?
      requires depth == |path| && path <= key && PrefixFree(Entries(t), key)
      ensures t.Inner?
      ensures idx >= |t.prefix| ==> path + t.prefix <= key
      ensures idx < |t.prefix| ==> depth + idx < |key| && key[depth + idx] != t.prefix[idx]
      ensures idx < |t.prefix| ==> path + t.prefix[..idx] <= key
    {
      hide *;
      InnerFacts(mem, t, path);
      var node := mem[n].node;
      assert depth <= |key|;
      var maxCmp := Least(MAX_PREFIX_LEN, node.partialLen, |key| - depth);
      idx := 0;
      while idx < maxCmp && node.partial[idx] == key[depth + idx]
        invariant 0 <= idx <= maxCmp
        invariant forall i :: 0 <= i < idx ==> key[depth + i] == t.prefix[i]
      {
        StoredByte(node, t, idx);
        idx := idx + 1;
      }
      if idx < maxCmp {
        StoredByte(node, t, idx);
        FollowedSoFar(path, t.prefix, key, idx);
        return;
      }
      if node.partialLen > MAX_PREFIX_LEN {
        var l;
        ghost var e;
        l, e := Minimum(n, t, path);
        KeysFollowPath(t, path, e);
        BelowPrefix(path, t.prefix, e.0);
        maxCmp := Lesser(|mem[l].key|, |key|) - depth;
        while idx < maxCmp && mem[l].key[depth + idx] == key[depth + idx]
          invariant 0 <= idx <= maxCmp
          invariant forall i :: 0 <= i < idx && i < |t.prefix| ==> key[depth + i] == t.prefix[i]
        {
          idx := idx + 1;
        }
      }
      RunsOn(t, path, key);
      FollowedSoFar(path, t.prefix, key, if idx < |t.prefix| then idx else |t.prefix|);
      WholePrefix(path, t.prefix, key);
    }

    lemma MemOkFacts()
      requires MemOk()
      ensures 0 < brk && forall p :: p in mem ==> 0 < p < brk
    {
    }

    lemma MemOkHolds()
      requires 0 < brk && forall p :: p in mem ==> 0 < p < brk
      ensures MemOk()
    {
    }

    /** `longest_common_prefix` of two keys from depth on. */
    method LongestCommonPrefix(a: Key, b: Key, depth: nat) returns (idx: nat)
      requires depth <= |a| && depth <= |b|
      ensures depth + idx <= |a| && depth + idx <= |b|
      ensures a[depth..depth + idx] == b[depth..depth + idx]
      ensures depth + idx < |a| && depth + idx < |b| ==> a[depth + idx] != b[depth + idx]
    {
      hide *;
      var maxCmp := Lesser(|a|, |b|) - depth;
      idx := 0;
      while idx < maxCmp && a[depth + idx] == b[depth + idx]
        invariant 0 <= idx <= maxCmp
        invariant forall i :: depth <= i < depth + idx ==> a[i] == b[i]
      {
        idx := idx + 1;
      }
    }

    /** Insertion at a leaf: update its value, or split it with a Node4. */
    method InsertAtLeaf(n: Ptr, key: Key, value: Value, depth: nat, ghost t: Tree, ghost path: Key)
      returns (ref: Ptr, oldValue: Option<Value>, ghost t': Tree)
      requires MemOk() && Stands(mem, t, path) && n == t.at && n in mem && mem[n].LeafCell?
      requires depth == |path| && path <= key && PrefixFree(Entries(t), key)
      modifies this`mem, this`brk
      ensures PutDone(old(mem), old(brk), t, mem, brk, t', path, key, value, oldValue) && ref == t'.at && MemOk()
      ensures KeepsTidy(old(mem), key, mem)
      ensures t.Leaf? && (t.key != key ==> IsFork(mem, ref))
    {
      hide *;
      LeafFacts(mem, t, path);
      MemOkFacts();
      var l := mem[n];
      if l.key == key {
        oldValue := Some(l.value);
        mem := mem[n := LeafCell(key, value)];
        ref := n;
        t' := Leaf(n, key, value);
        LeafUpdated(old(mem), brk, t, mem, path, value);
        LeafStored(old(mem), n, key, value);
        MemOkHolds();
      } else {
        oldValue := None;
        var l2 := Alloc(LeafCell(key, value));
        LeafParts(t, path, key);
        var longest := LongestCommonPrefix(l.key, key, depth);
        LeafSplit(t, path, key, longest);
        var m := Lesser(MAX_PREFIX_LEN, longest);
        var partial := key[depth..depth + m] + Zeros(MAX_PREFIX_LEN - m);
        var node := ForkNode(longest, partial, l.key[depth + longest], n, key[depth + longest], l2);
        ref := Alloc(NodeCell(node));
        t' := Inner(ref, key[depth..depth + longest],
            map[l.key[depth + longest] := t, key[depth + longest] := Leaf(l2, key, value)]);
        CopiedPrefix(key, depth, longest, m, partial);
        LeafSplitDone(old(mem), old(brk), t, path, key, value, longest, l2, node, mem, brk, t');
        if TidyMem(old(mem)) && Low(key) {
          TidyAt(old(mem), n);
          LowAt(l.key, depth + longest);
          LowAt(key, depth + longest);
        }
        ForkOfIs(node, l.key[depth + longest], n, key[depth + longest], l2);
        ForkStored(old(mem), l2, key, value, ref, node, l.key[depth + longest], n, key[depth + longest], l2);
        ForkIs(mem, ref, node);
      }
    }

    /** The header of a node whose first diff+1 prefix bytes move into a new parent. */
    method CutPrefix(n: Ptr, depth: nat, diff: nat, ghost t: Tree, ghost path: Key) returns (b: Byte, node2: Node)
      requires Stands(mem, t, path) && n == t.at && n in mem && mem[n].NodeCell?
      requires depth == |path| && t.Inner? && diff < |t.prefix|
      ensures b == t.prefix[diff] && NodeHolds(node2, Inner(t.at, t.prefix[diff + 1..], t.kids))
      ensures SameOrder(mem[n].node, node2)
    {
      hide *;
      InnerFacts(mem, t, path);
      var node := mem[n].node;
      var newLen := node.partialLen - (diff + 1);
      var m := Lesser(MAX_PREFIX_LEN, newLen);
      var partial;
      if node.partialLen <= MAX_PREFIX_LEN {
        StoredByte(node, t, diff);
        b := node.partial[diff];
        partial := MemMove(node.partial, 0, diff + 1, m);
        MovedPrefix(node, t, diff, m, partial);
      } else {
        var l;
        ghost var e;
        l, e := Minimum(n, t, path);
        KeysFollowPath(t, path, e);
        BelowPrefix(path, t.prefix, e.0);
        b := mem[l].key[depth + diff];
        var at := depth + diff + 1;
        partial := mem[l].key[at..at + m] + node.partial[m..];
        RecoveredPrefix(path, t.prefix, e.0, diff, m, node.partial[m..]);
      }
      node2 := node.(partialLen := newLen, partial := partial);
      NewHeader(node, t, node2, t.prefix[diff + 1..]);
      SameKidBytes(node, t, node2, Inner(t.at, t.prefix[diff + 1..], t.kids));
      SameOrderIs(node, node2);
    }

    /** Insertion of a key that leaves the prefix of a node after `diff` bytes. */
    method SplitPrefix(n: Ptr, key: Key, value: Value, depth: nat, diff: nat, ghost t: Tree, ghost path: Key)
      returns (ref: Ptr, ghost t': Tree)
      requires MemOk() && Stands(mem, t, path) && n == t.at && n in mem && mem[n].NodeCell?
      requires depth == |path| && t.Inner? && diff < |t.prefix|
      requires depth + diff < |key| && key[depth + diff] != t.prefix[diff] && path + t.prefix[..diff] <= key
      modifies this`mem, this`brk
      ensures PutDone(old(mem), old(brk), t, mem, brk, t', path, key, value, None) && ref == t'.at && MemOk()
      ensures KeepsTidy(old(mem), key, mem)
    {
      hide *;
      InnerFacts(mem, t, path);
      MemOkFacts();
      ghost var mem0, brk0 := mem, brk;
      var node := mem[n].node;
      var m := Lesser(MAX_PREFIX_LEN, diff);
      var partial := node.partial[..m] + Zeros(MAX_PREFIX_LEN - m);
      FirstPart(node, t, diff, m, partial);
      var b, node2 := CutPrefix(n, depth, diff, t, path);
      mem := mem[n := NodeCell(node2)];
      MemOkHolds();
      var l := Alloc(LeafCell(key, value));
      MemOkFacts();
      var fork := ForkNode(diff, partial, b, n, key[depth + diff], l);
      ref := Alloc(NodeCell(fork));
      t' := Inner(ref, t.prefix[..diff], map[b := Inner(n, t.prefix[diff + 1..], t.kids),
          key[depth + diff] := Leaf(l, key, value)]);
      PrefixSplitDone(mem0, brk0, t, path, key, value, diff, node2, l, fork, mem, brk, t');
      ForkOfIs(fork, b, n, key[depth + diff], l);
      SameOrderStored(mem0, n, node2, key);
      if TidyMem(mem0) && Low(key) {
        LowPath(mem0, t, path);
        LowAt(t.prefix, diff);
        LowAt(key, depth + diff);
        ForkStored(mem0[n := NodeCell(node2)], l, key, value, ref, fork, b, n, key[depth + diff], l);
      }
      KeepsOnwards(mem0, key, mem0[n := NodeCell(node2)], mem);
    }

    /** A leaf for a byte without a child, hung into node n. */
    method AddLeaf(n: Ptr, key: Key, value: Value, depth: nat, ghost t: Tree, ghost path: Key)
      returns (ref: Ptr, ghost t': Tree)
      requires MemOk() && Stands(mem, t, path) && n == t.at && n in mem && mem[n].NodeCell? && t.Inner?
      requires depth == |path| + |t.prefix| && depth < |key| && path + t.prefix <= key && key[depth] !in t.kids
      modifies this`mem, this`brk
      ensures PutDone(old(mem), old(brk), t, mem, brk, t', path, key, value, None) && ref == t'.at && MemOk()
      ensures KeepsTidy(old(mem), key, mem) && NodeGained(old(mem), n, mem, ref, key[depth])
    {
      hide *;
      InnerFacts(mem, t, path);
      MemOkFacts();
      ghost var mem0, brk0 := mem, brk;
      ghost var node := mem[n].node;
      var l := Alloc(LeafCell(key, value));
      ghost var r;
      ref, r := AddChildTo(n, key[depth], l);
      t' := Inner(ref, t.prefix, t.kids[key[depth] := Leaf(l, key, value)]);
      MemOkFacts();
      LeafAdded(mem0, brk0, t, path, key, value, l, node, r, mem, brk, t');
      if Low(key) { LowAt(key, depth); }
      GainStored(mem0, l, key, value, n, r, key[depth], ref);
      GainedIs(mem0, n, mem, ref, key[depth], l);
    }

    /** `add_child`: the node takes the child where it is or, when it must grow, in a new cell. */
    method AddChildTo(n: Ptr, c: Byte, child: Ptr) returns (ref: Ptr, ghost r: Node)
      requires MemOk() && n in mem && mem[n].NodeCell? && LayoutOk(mem[n].node) && Sized(mem[n].node)
      requires c !in Kids(mem[n].node) && child != NULL
      modifies this`mem, this`brk
      ensures MemOk() && ref != NULL && brk >= old(brk)
      ensures var node := old(mem)[n].node;
        && Sized(node) && Added(node, r, c, child) && r.kind == GrowsTo(node.kind, |Kids(node)|)
        && (r.kind != node.kind ==> ref == old(brk) && mem == (old(mem) - {n})[ref := NodeCell(r)])
        && (r.kind == node.kind ==> ref == n && mem == old(mem)[n := NodeCell(r)])
        && (IsList(node) && IsList(r) ==> ListAdded(node, r, c, child, node.kind.Kind16? || |Kids(node)| == 4))
    {
      hide *;
      var node := mem[n].node;
      var r' := AddChild(node, c, child);
      r := r';
      ref := ReplaceNode(n, r', r'.kind != node.kind);
    }

    /** Overwrite a node in its cell or, when it changed layout, move it to a new one. */
    method ReplaceNode(n: Ptr, r: Node, moves: bool) returns (ref: Ptr)
      requires MemOk() && n in mem
      modifies this`mem, this`brk
      ensures MemOk() && ref != NULL && brk >= old(brk)
      ensures moves ==> ref == old(brk) && mem == (old(mem) - {n})[ref := NodeCell(r)]
      ensures !moves ==> ref == n && mem == old(mem)[n := NodeCell(r)]
    {
      if moves {
        ref := Alloc(NodeCell(r));
        mem := mem - {n};
        assert mem == (old(mem) - {n})[ref := NodeCell(r)];
      } else {
        mem := mem[n := NodeCell(r)];
        ref := n;
      }
    }

    /** `recursive_insert` */
    method RecursiveInsert(n: Ptr, key: Key, value: Value, depth: nat, ghost t: Tree, ghost path: Key)
      returns (ref: Ptr, oldValue: Option<Value>, ghost t': Tree)
      requires MemOk() && Stands(mem, t, path) && n == t.at && n in mem
      requires depth == |path| && path <= key && PrefixFree(Entries(t), key)
      modifies this`mem, this`brk
      ensures PutDone(old(mem), old(brk), t, mem, brk, t', path, key, value, oldValue) && ref == t'.at && MemOk()
      ensures KeepsTidy(old(mem), key, mem)
      ensures t.Leaf? && t.key != key ==> IsFork(mem, ref)
      ensures IsGain(t, path, key) ==> NodeGained(old(mem), n, mem, ref, key[|path| + |t.prefix|])
      decreases t
    {
      hide *;
      if mem[n].LeafCell? {
        ref, oldValue, t' := InsertAtLeaf(n, key, value, depth, t, path);
        NoGain(t, path, key);
        return;
      }
      InnerFacts(mem, t, path);
      var node := mem[n].node;
      var depth' := depth;
      if node.partialLen > 0 {
        var diff := PrefixMismatch(n, key, depth, t, path);
        if diff < node.partialLen {
          OffPath(t, path, key, diff);
          oldValue := None;
          ref, t' := SplitPrefix(n, key, value, depth, diff, t, path);
          return;
        }
        depth' := depth + node.partialLen;
      } else {
        NoPrefix(t, path, key);
      }
      RunsOn(t, path, key);
      NextByte(t, path, key);
      var c := key[depth'];
      var slot := FindChild(node, c);
      if slot == -1 {
        oldValue := None;
        ref, t' := AddLeaf(n, key, value, depth', t, path);
        return;
      }
      MemOkFacts();
      ghost var mem0, brk0 := mem, brk;
      KidStands(mem, t, path, c);
      StandsParts(mem, t, path);
      PrefixFreeKid(t, c, key);
      var ref1;
      ghost var kid;
      ref1, oldValue, kid := RecursiveInsert(node.children[slot], key, value, depth' + 1, t.kids[c], path + t.prefix
          + [c]);
      MemOkFacts();
      NodeUntouched(mem0, brk0, t, c, mem, brk, kid, path + t.prefix + [c], key, value, oldValue);
      ghost var mem1 := mem;
      mem := mem[n := NodeCell(SetChild(node, slot, ref1))];
      MemOkHolds();
      ref := n;
      t' := Inner(n, t.prefix, t.kids[c := kid]);
      PutBelowDone(mem0, brk0, t, path, c, slot, mem1, brk, kid, key, value, oldValue, mem, t');
      NoGainAt(t, path, key, c);
      DoneParts(mem0, brk0, t.kids[c], mem1, brk, kid, path + t.prefix + [c], key, value, oldValue);
      ChildStored(mem1, n, c, slot, ref1, key);
      KeepsTwice(mem0, key, mem1, mem);
    }

    /** `art_insert`: the value it replaced, if any. */
    method Insert(key: Key, value: Value) returns (oldValue: Option<Value>)
      requires Valid() && PrefixFree(Contents(), key)
      modifies this
      ensures Valid() && Contents() == Put(old(Contents()), key, value)
      ensures oldValue.Some? <==> HasKey(old(Contents()), key)
      ensures oldValue.Some? ==> (key, oldValue.value) in old(Contents())
      ensures KeepsTidy(old(mem), key, mem)
      ensures old(tree).Some? && old(tree).value.Leaf? && old(tree).value.key != key ==> IsFork(mem, root)
      ensures old(tree).Some? && IsGain(old(tree).value, [], key) ==>
        NodeGained(old(mem), old(root), mem, root, key[|old(tree).value.prefix|])
    {
      hide *;
      if root == NULL {
        EmptyFacts();
        LeafStored(mem, brk, key, value);
        ValidMem();
        oldValue := None;
        root := Alloc(LeafCell(key, value));
        tree := Some(Leaf(root, key, value));
        size := size + 1;
        FirstLeaf(key, value);
      } else {
        RootFacts();
        ghost var t := tree.value;
        ghost var mem0, brk0 := mem, brk;
        ghost var t';
        EmptyPath(key);
        StandsParts(mem, t, []);
        root, oldValue, t' := RecursiveInsert(root, key, value, 0, t, []);
        tree := Some(t');
        DoneParts(mem0, brk0, t, mem, brk, t', [], key, value, oldValue);
        if oldValue.None? { size := size + 1; }
        PutSize(t, key, value);
        RootChanged(mem0, brk0, t, key, value, oldValue);
      }
    }

    lemma ValidMem()
      requires Valid()
      ensures MemOk()
    {
    }

    lemma FirstLeaf(key: Key, value: Value)
      requires MemOk() && root != NULL && mem == map[root := LeafCell(key, value)] && size == 1
      requires tree == Some(Leaf(root, key, value))
      ensures Valid() && Contents() == Put({}, key, value)
    {
    }

    lemma RootChanged(mem0: map<Ptr, Cell>, brk0: Ptr, t: Tree, key: Key, value: Value, oldValue: Option<Value>)
      requires MemOk() && tree.Some? && root == tree.value.at && mem0.Keys == Cells(t)
      requires PutDone(mem0, brk0, t, mem, brk, tree.value, [], key, value, oldValue)
      requires size == |Put(Entries(t), key, value)|
      ensures Valid() && Contents() == Put(Entries(t), key, value)
    {
      hide Stands, Put, Entries, Cells, HasKey;
      HasAddressStands(mem, tree.value, []);
    }

    // ----- deleting -----

    /** The path of a node and of its only kid, concatenated in the header of the kid. */
    method MergePrefix(n: Node, x: Byte, child: Node, ghost outer: seq<Byte>, ghost inner: seq<Byte>)
        returns (child2: Node)
      requires Sized(n) && n.partialLen == |outer| && Stored(n) == outer[..Min(|outer|, MAX_PREFIX_LEN)]
      requires Sized(child) && child.partialLen == |inner| && Stored(child) == inner[..Min(|inner|, MAX_PREFIX_LEN)]
      ensures child2 == child.(partialLen := |outer + [x] + inner|, partial := child2.partial)
      ensures |child2.partial| == MAX_PREFIX_LEN
      ensures var m := Lesser(MAX_PREFIX_LEN, child2.partialLen); child2.partial[..m] == (outer + [x] + inner)[..m]
    {
      StoredBytes(n, outer);
      StoredBytes(child, inner);
      var partial := MergeStored(n.partial, n.partialLen, x, child.partial, child.partialLen, outer, inner);
      child2 := child.(partialLen := child.partialLen + n.partialLen + 1, partial := partial);
    }

    method MergeStored(above: seq<Byte>, aboveLen: nat, x: Byte, below: seq<Byte>, belowLen: nat,
                       ghost outer: seq<Byte>, ghost inner: seq<Byte>) returns (r: seq<Byte>)
      requires |above| == |below| == MAX_PREFIX_LEN && aboveLen == |outer| && belowLen == |inner|
      requires forall i :: 0 <= i < |outer| && i < MAX_PREFIX_LEN ==> above[i] == outer[i]
      requires forall i :: 0 <= i < |inner| && i < MAX_PREFIX_LEN ==> below[i] == inner[i]
      ensures |r| == MAX_PREFIX_LEN
      ensures var whole := outer + [x] + inner; forall i :: 0 <= i < |whole| && i < MAX_PREFIX_LEN ==> r[i] == whole[i]
    {
      ghost var whole := outer + [x] + inner;
      r := above;
      var prefix := aboveLen;
      if prefix < MAX_PREFIX_LEN {
        r := r[prefix := x];
        prefix := prefix + 1;
      }
      assert forall i :: 0 <= i < prefix && i < MAX_PREFIX_LEN ==> r[i] == whole[i];
      if prefix < MAX_PREFIX_LEN {
        var sub := Lesser(belowLen, MAX_PREFIX_LEN - prefix);
        r := r[..prefix] + below[..sub] + r[prefix + sub..];
        assert forall i :: 0 <= i < sub ==> whole[prefix + i] == inner[i];
        prefix := prefix + sub;
      }
      var m := Lesser(prefix, MAX_PREFIX_LEN);
      r := r[..m] + below[m..];
    }

    /** The entry and the slot of the last kid of a Node4 after removing the other. */
    method RemoveLastButOne(node: Node, c: Byte, slot: nat, ghost t: Tree) returns (r: Node, x: Byte, child: Ptr)
      requires NodeOk(node) && Sized(node) && node.kind.Kind4? && |Kids(node)| == 2
      requires t.Inner? && NodeHolds(node, t) && c in t.kids && slot == SlotOf(node, c)
      ensures Sized(r) && r.partialLen == |t.prefix| && Stored(r) == t.prefix[..Min(|t.prefix|, MAX_PREFIX_LEN)]
      ensures x in t.kids && x != c && t.kids.Keys == {c, x} && child == t.kids[x].at
    {
      hide *;
      LayoutOfNode(node, t);
      SlotIsKey(node, c);
      r := RemoveChild4(node, slot);
      OneLeft(node, r, c, t);
      x, child := r.keys[0], r.children[0];
    }

    /** `remove_child4` when one kid is left: that kid takes the place of the node. */
    method Collapse(n: Ptr, key: Key, c: Byte, slot: nat, l: Ptr, ghost t: Tree, ghost path: Key)
      returns (ref: Ptr, ghost t': Tree)
      requires MemOk() && Stands(mem, t, path) && n == t.at && n in mem && mem[n].NodeCell? && t.Inner?
      requires mem[n].node.kind.Kind4? && |Kids(mem[n].node)| == 2
      requires IsLeafKid(t, path, c, key, l) && slot == SlotOf(mem[n].node, c)
      modifies this`mem
      ensures DropDone(old(mem), brk, t, mem, brk, t', path, key, l) && ref == t'.at && MemOk()
      ensures TidyMem(old(mem)) ==> TidyMem(mem)
    {
      hide *;
      InnerFacts(mem, t, path);
      MemOkFacts();
      ghost var mem0 := mem;
      var node := mem[n].node;
      LeafKidFacts(t, path, c, key, l);
      var r, x, child := RemoveLastButOne(node, c, slot, t);
      KidStands(mem, t, path, x);
      ghost var kid := t.kids[x];
      if mem[child].NodeCell? {
        InnerFacts(mem, kid, path + t.prefix + [x]);
        var child2 := MergePrefix(r, x, mem[child].node, t.prefix, kid.prefix);
        t' := Inner(child, t.prefix + [x] + kid.prefix, kid.kids);
        NewHeader(mem[child].node, kid, child2, t.prefix + [x] + kid.prefix);
        SameKidBytes(mem[child].node, kid, child2, t');
        SameOrderIs(mem[child].node, child2);
        SameOrderStored(mem, child, child2, key);
        mem := mem[child := NodeCell(child2)];
        if TidyMem(mem) { TidyWithout(mem, n); }
        mem := mem - {n};
        CollapsedNode(mem0, brk, t, path, c, x, child2, mem, t');
      } else {
        t' := kid;
        if TidyMem(mem) { TidyWithout(mem, n); }
        mem := mem - {n};
        CollapsedLeaf(mem0, brk, t, path, c, x, mem);
      }
      ref := child;
      CollapseDone(mem0, brk, t, path, key, c, x, l, mem, t');
      MemOkHolds();
    }

    /** `remove_child` for a leaf child, when other kids remain or the layout shrinks. */
    method DropLeaf(n: Ptr, key: Key, c: Byte, slot: nat, l: Ptr, ghost t: Tree, ghost path: Key)
      returns (ref: Ptr, ghost t': Tree)
      requires MemOk() && Stands(mem, t, path) && n == t.at && n in mem && mem[n].NodeCell? && t.Inner?
      requires !(mem[n].node.kind.Kind4? && |Kids(mem[n].node)| == 2)
      requires IsLeafKid(t, path, c, key, l) && slot == SlotOf(mem[n].node, c)
      modifies this`mem, this`brk
      ensures DropDone(old(mem), old(brk), t, mem, brk, t', path, key, l) && ref == t'.at && MemOk()
      ensures (TidyMem(old(mem)) ==> TidyMem(mem)) && NodeLost(old(mem), n, mem, ref, c)
    {
      hide *;
      InnerFacts(mem, t, path);
      MemOkFacts();
      ghost var mem0, brk0 := mem, brk;
      var node := mem[n].node;
      LeafKidFacts(t, path, c, key, l);
      var r := RemoveChild(node, c, slot);
      ref := ReplaceNode(n, r, r.kind != node.kind);
      t' := Inner(ref, t.prefix, t.kids - {c});
      MemOkFacts();
      LeafDropped(mem0, brk0, t, path, key, c, l, node, r, mem, brk, t');
      LossStored(mem0, n, r, c, slot, ref);
      LostIs(mem0, n, mem, ref, c, slot);
    }

    lemma KidCount(n: Node, t: Tree)
      requires t.Inner? && NodeHolds(n, t) && n.kind.Kind4? && n.numChildren == 2
      ensures |t.kids| == 2
    {
      hide Kids;
      assert |Kids(n)| == |Kids(n).Keys| && |t.kids| == |t.kids.Keys|;
    }

    /** `recursive_delete`: the removed leaf cell, or NULL; the caller frees it. */
    method RecursiveDelete(n: Ptr, key: Key, depth: nat, ghost t: Tree, ghost path: Key)
      returns (ref: Ptr, l: Ptr, ghost t': Option<Tree>)
      requires MemOk() && Stands(mem, t, path) && n == t.at && n in mem && depth == |path|
      modifies this`mem, this`brk
      ensures MemOk()
      ensures l == NULL ==> mem == old(mem) && ref == n && t' == Some(t) && !HasKey(Entries(t), key)
      ensures l != NULL && t.Leaf? ==> mem == old(mem) && ref == NULL && t'.None? && l == n && t.key == key
      ensures l != NULL && t.Inner? ==>
        t'.Some? && DropDone(old(mem), old(brk), t, mem, brk, t'.value, path, key, l) && ref == t'.value.at
      ensures TidyMem(old(mem)) ==> TidyMem(mem)
      ensures IsLoss(t, path, key) ==> l != NULL && NodeLost(old(mem), n, mem, ref, key[|path| + |t.prefix|])
      decreases t
    {
      hide *;
      ref, l, t' := n, NULL, Some(t);
      if IsLoss(t, path, key) { LossParts(t, path, key); }
      if mem[n].LeafCell? {
        LeafFacts(mem, t, path);
        LeafAnswer(t, Entries(t), key);
        NoGain(t, path, key);
        if mem[n].key == key { ref, l, t' := NULL, n, None; }
        return;
      }
      InnerFacts(mem, t, path);
      var node := mem[n].node;
      var depth' := depth;
      if node.partialLen > 0 {
        var matched := CheckPrefix(node, key, depth);
        if matched != Min(MAX_PREFIX_LEN, node.partialLen) {
          MismatchMeansAbsent(t, path, key, node, matched);
          return;
        }
        depth' := depth + node.partialLen;
      }
      var c := KeyByte(key, depth');
      var slot := FindChild(node, c);
      OnlyThisKid(t, path, key, c);
      if slot == -1 { return; }
      KidStands(mem, t, path, c);
      var child := node.children[slot];
      if mem[child].LeafCell? {
        LeafFacts(mem, t.kids[c], path + t.prefix + [c]);
        LeafAnswer(t.kids[c], Entries(t), key);
        if mem[child].key != key { return; }
        LeafKidFound(t, path, c, key, child);
        ghost var t1;
        if node.kind.Kind4? && node.numChildren == 2 {
          TwoChildren(node);
          KidCount(node, t);
          ref, t1 := Collapse(n, key, c, slot, child, t, path);
        } else {
          TwoChildren(node);
          ref, t1 := DropLeaf(n, key, c, slot, child, t, path);
        }
        l, t' := child, Some(t1);
        return;
      }
      MemOkFacts();
      ghost var mem0, brk0 := mem, brk;
      StandsParts(mem, t, path);
      InnerFacts(mem, t.kids[c], path + t.prefix + [c]);
      var ref1;
      ghost var kid;
      ref1, l, kid := RecursiveDelete(child, key, depth' + 1, t.kids[c], path + t.prefix + [c]);
      if l == NULL { return; }
      MemOkFacts();
      NodeStays(mem0, brk0, t, c, mem, brk, kid.value, path + t.prefix + [c], key, l);
      ghost var mem1 := mem;
      mem := mem[n := NodeCell(SetChild(node, slot, ref1))];
      MemOkHolds();
      ref, t' := n, Some(Inner(n, t.prefix, t.kids[c := kid.value]));
      DropParts(mem0, brk0, t.kids[c], mem1, brk, kid.value, path + t.prefix + [c], key, l);
      ChildStored(mem1, n, c, slot, ref1, key);
      DropBelowDone(mem0, brk0, t, path, c, slot, mem1, brk, kid.value, key, l, mem, t'.value);
    }

    /** `art_delete`: the value of the removed key, if it was stored. */
    method Delete(key: Key) returns (oldValue: Option<Value>)
      requires Valid()
      modifies this
      ensures Valid() && Contents() == Without(old(Contents()), key)
      ensures oldValue.Some? <==> HasKey(old(Contents()), key)
      ensures oldValue.Some? ==> (key, oldValue.value) in old(Contents())
      ensures TidyMem(old(mem)) ==> TidyMem(mem)
      ensures old(tree).Some? && IsLoss(old(tree).value, [], key) ==>
        NodeLost(old(mem), old(root), mem, root, key[|old(tree).value.prefix|])
    {
      hide *;
      oldValue := None;
      if root == NULL {
        EmptyFacts();
        NothingToRemove({}, key);
        return;
      }
      RootFacts();
      ghost var t := tree.value;
      ghost var mem0, brk0 := mem, brk;
      StandsParts(mem, t, []);
      var ref, l;
      ghost var t';
      ValidMem();
      ref, l, t' := RecursiveDelete(root, key, 0, t, []);
      if l == NULL {
        NothingToRemove(Entries(t), key);
        SomeLeft();
        return;
      }
      RemovedLeaf(mem0, brk0, t, key, l, t', mem, brk);
      oldValue := Some(mem[l].value);
      DropSize(t, key);
      size := size - 1;
      ghost var mem1 := mem;
      MemOkFacts();
      if TidyMem(mem) { TidyWithout(mem, l); }
      mem := mem - {l};
      MemOkHolds();
      root := ref;
      tree := t';
      AfterDelete(mem0, brk0, t, key, l, mem1, t');
      if IsLoss(t, [], key) {
        LossParts(t, [], key);
        RootFactsAgain();
        StillLost(mem0, t.at, mem1, ref, key[|t.prefix|], l);
      }
    }

    lemma RootFactsAgain()
      requires Valid() && tree.Some?
      ensures root in mem
    {
      hide Cells, Apart, Shaped, Entries, NodeHolds;
    }

    lemma AfterDelete(mem0: map<Ptr, Cell>, brk0: Ptr, t: Tree, key: Key, l: Ptr, mem1: map<Ptr, Cell>,
                      t': Option<Tree>)
      requires MemOk() && mem == mem1 - {l} && tree == t' && mem0.Keys == Cells(t)
      requires RemovedFrom(mem0, brk0, t, key, l, t', mem1, brk)
      requires root == (if t'.None? then NULL else t'.value.at) && size == |Without(Entries(t), key)|
      ensures Valid() && Contents() == Without(Entries(t), key)
    {
      hide *;
      RemovedParts(mem0, brk0, t, key, l, t', mem1, brk);
      if t'.None? {
        NoneLeft();
      } else {
        HoldsFrame(mem1, mem, t'.value);
        SomeLeft();
      }
    }

    lemma NoneLeft()
      requires MemOk() && mem == map[] && tree.None? && root == NULL && size == 0
      ensures Valid() && Contents() == {}
    {
    }

    lemma SomeLeft()
      requires MemOk() && tree.Some? && root == tree.value.at
      requires Holds(mem, tree.value) && Apart(tree.value) && Shaped(tree.value, [])
      requires mem.Keys == Cells(tree.value) && size == |Entries(tree.value)|
      ensures Valid() && Contents() == Entries(tree.value)
    {
      hide Holds, Apart, Shaped, Entries, Cells;
    }
  }
}
