/** The order of the children of adaptive radix tree nodes in memory, and what the walk to the first leaf finds. */
module ArtOrder {
  import opened ArtNode
  import opened ArtShape
  import opened ArtTree
  import opened ArtProofs

  // ---------------------------------------------------------------- bytes below 128

  ghost predicate Low(key: seq<Byte>) {
    forall i :: 0 <= i < |key| ==> key[i] < 128
  }

  /** A node in order, all of whose key bytes are below 128. */
  ghost predicate Tidy(n: Node) {
    Sized(n) && Ascends(n) && forall b: Byte :: b in Kids(n) ==> b < 128
  }

  ghost predicate TidyCell(c: Cell) {
    match c
    case LeafCell(key, _) => Low(key)
    case NodeCell(n) => Tidy(n)
  }

  /** All keys have bytes below 128 only, and all nodes are in order. */
  ghost predicate TidyMem(mem: map<Ptr, Cell>) {
    forall p :: p in mem ==> TidyCell(mem[p])
  }

  lemma TidyAt(mem: map<Ptr, Cell>, p: Ptr)
    requires p in mem && TidyMem(mem)
    ensures mem[p].LeafCell? ==> Low(mem[p].key)
    ensures mem[p].NodeCell? ==> Tidy(mem[p].node)
  {
    hide Tidy, Low;
    assert TidyCell(mem[p]);
  }

  lemma TidyStore(mem: map<Ptr, Cell>, p: Ptr, c: Cell)
    requires TidyMem(mem)
    ensures (match c case LeafCell(key, _) => Low(key) case NodeCell(n) => Tidy(n)) ==> TidyMem(mem[p := c])
  {
    hide Tidy, Low;
  }

  lemma TidyWithout(mem: map<Ptr, Cell>, p: Ptr)
    requires TidyMem(mem)
    ensures TidyMem(mem - {p})
  {
    hide TidyCell;
  }

  lemma LowAt(key: seq<Byte>, i: nat)
    requires Low(key) && i < |key|
    ensures key[i] < 128
  {
  }

  lemma KeysOfList(n: Node)
    requires LayoutOk(n) && IsList(n)
    ensures Sized(n) && forall i :: 0 <= i < n.numChildren ==> n.keys[i] in Kids(n)
  {
    hide Kids;
    ListFacts(n);
    forall i | 0 <= i < n.numChildren ensures n.keys[i] in Kids(n) { ListKid(n, i); }
  }

  lemma AbsentFromList(n: Node, c: Byte)
    requires LayoutOk(n) && IsList(n) && Sized(n) && c !in Kids(n)
    ensures forall i :: 0 <= i < n.numChildren ==> n.keys[i] != c
  {
    hide Kids;
    KeysOfList(n);
  }

  /** Below 128 the signed comparison misplaces nothing. */
  lemma TidyAdded(n: Node, r: Node, c: Byte, child: Ptr)
    requires Added(n, r, c, child) && Sized(n) && c !in Kids(n) && c < 128 && Tidy(n)
    requires r.kind == GrowsTo(n.kind, |Kids(n)|)
    requires IsList(n) && IsList(r) ==> ListAdded(n, r, c, child, n.kind.Kind16? || |Kids(n)| == 4)
    ensures Tidy(r)
  {
    hide Kids, ListAdded, LayoutOk, Ascends;
    KindOfList(n);
    KindOfList(r);
    AddedFacts(n, r, c, child);
    if IsList(r) {
      AddedFrom(n, r, c, child);
      KeysOfList(n);
      AbsentFromList(n, c);
      NothingHigh(n, c);
      AddKeepsOrder(n, r, c, child, n.kind.Kind16? || |Kids(n)| == 4);
    } else {
      NoListAscends(r);
    }
    hide Added;
  }

  lemma AddedFrom(n: Node, r: Node, c: Byte, child: Ptr)
    requires Added(n, r, c, child) && IsList(r) && Sized(n) && r.kind == GrowsTo(n.kind, |Kids(n)|)
    ensures LayoutOk(n) && IsList(n)
  {
    hide Kids, LayoutOk;
  }

  lemma NothingHigh(n: Node, c: Byte)
    requires IsList(n) && c < 128 && forall i :: 0 <= i < n.numChildren ==> n.keys[i] < 128
    ensures !Misplaced(n, c)
  {
  }

  lemma NoListAscends(n: Node)
    requires !IsList(n)
    ensures Ascends(n)
  {
  }

  lemma TidyRemoved(n: Node, r: Node, c: Byte, slot: nat)
    requires Removed(n, r, c) && Sized(n) && Tidy(n)
    requires if IsList(n) then ListDropped(n, r, slot) else Ascends(r)
    ensures Tidy(r)
  {
    hide Kids, LayoutOk, Ascends, ListDropped;
    RemovedFacts(n, r, c);
    if IsList(n) { DropKeepsOrder(n, r, slot); }
  }

  /** Neither the header nor the child pointers matter. */
  lemma TidySame(n: Node, r: Node)
    requires Tidy(n) && Sized(n) && Sized(r) && r.kind == n.kind && r.keys == n.keys && r.numChildren == n.numChildren
    requires Kids(r).Keys == Kids(n).Keys
    ensures Tidy(r)
  {
    hide Kids;
    assert IsList(r) ==> IsList(n);
  }

  /** A node of two children, in order. */
  ghost predicate ForkOf(n: Node, b: Byte, p: Ptr, c: Byte, q: Ptr) {
    NodeOk(n) && Ascends(n) && Sized(n) && Kids(n) == map[b := p, c := q]
  }

  lemma ForkOfIs(n: Node, b: Byte, p: Ptr, c: Byte, q: Ptr)
    requires NodeOk(n) && Ascends(n) && Sized(n) && Kids(n) == map[b := p, c := q]
    ensures ForkOf(n, b, p, c, q)
  {
    hide Kids;
  }

  lemma TidyFork(n: Node, b: Byte, p: Ptr, c: Byte, q: Ptr)
    requires ForkOf(n, b, p, c, q) && b < 128 && c < 128
    ensures Tidy(n)
  {
    hide Kids, Ascends;
  }

  // ---------------------------------------------------------------- paths

  lemma {:induction false} EntryInMemory(mem: map<Ptr, Cell>, t: Tree, e: Entry) returns (l: Ptr)
    requires Holds(mem, t) && e in Entries(t)
    ensures l in mem && mem[l] == LeafCell(e.0, e.1)
    decreases t
  {
    hide NodeHolds;
    if t.Leaf? {
      l := t.at;
    } else {
      var b: Byte :| b in t.kids && e in Entries(t.kids[b]);
      l := EntryInMemory(mem, t.kids[b], e);
    }
  }

  /** Paths are parts of stored keys. */
  lemma LowPath(mem: map<Ptr, Cell>, t: Tree, path: Key)
    requires Stands(mem, t, path) && t.Inner? && TidyMem(mem)
    ensures Low(t.prefix)
  {
    StandsParts(mem, t, path);
    hide *;
    var e := NotEmpty(t, path);
    KeysFollowPath(t, path, e);
    var l := EntryInMemory(mem, t, e);
    TidyAt(mem, l);
    LowInside(path, t.prefix, e.0);
  }

  lemma LowInside(path: Key, prefix: seq<Byte>, key: Key)
    requires path + prefix <= key && Low(key)
    ensures Low(prefix)
  {
    SliceOf(path, prefix, key);
  }

  // ---------------------------------------------------------------- the first leaf

  /** The key byte of the child that `minimum` goes on at. */
  ghost predicate IsFirst(n: Node, c: Byte) {
    && Sized(n) && c in Kids(n)
    && if IsList(n) then 0 < n.numChildren && c == n.keys[0] else forall b: Byte :: b in Kids(n) ==> c <= b
  }

  /** On the way to the first leaf every node has its least key byte first. */
  ghost predicate FirstIsLeast(mem: map<Ptr, Cell>, t: Tree)
    decreases t
  {
    t.Inner? ==>
      && t.at in mem && mem[t.at].NodeCell?
      && exists c: Byte :: c in t.kids && IsFirst(mem[t.at].node, c) && (forall b: Byte :: b in t.kids ==> c <= b)
                           && FirstIsLeast(mem, t.kids[c])
  }

  lemma OneFirst(n: Node, b: Byte, c: Byte)
    requires IsFirst(n, b) && IsFirst(n, c)
    ensures b == c
  {
  }

  ghost predicate IsLeast(es: set<Entry>, e: Entry) {
    forall x :: x in es ==> Before(e.0, x.0)
  }

  lemma LeafIsLeast(mem: map<Ptr, Cell>, t: Tree, e: Entry)
    requires t.Leaf? && e == (t.key, t.value)
    ensures FirstIsLeast(mem, t) && IsLeast(Entries(t), e)
  {
    assert Entries(t) == {e};
  }

  lemma FirstBelow(mem: map<Ptr, Cell>, t: Tree, c: Byte)
    requires t.Inner? && c in t.kids && t.at in mem && mem[t.at].NodeCell? && IsFirst(mem[t.at].node, c)
    ensures FirstIsLeast(mem, t) <==> (forall b: Byte :: b in t.kids ==> c <= b) && FirstIsLeast(mem, t.kids[c])
  {
    hide IsFirst;
    if FirstIsLeast(mem, t) {
      var x: Byte :| x in t.kids && IsFirst(mem[t.at].node, x) && (forall b: Byte :: b in t.kids ==> x <= b)
          && FirstIsLeast(mem, t.kids[x]);
      OneFirst(mem[t.at].node, x, c);
    }
  }

  /** The least entry below the first child is the least of all exactly if its byte is the least. */
  lemma LeastBelow(t: Tree, path: Key, c: Byte, e: Entry)
    requires t.Inner? && Shaped(t, path) && c in t.kids && e in Entries(t.kids[c])
    ensures IsLeast(Entries(t), e) <==> (forall b: Byte :: b in t.kids ==> c <= b) && IsLeast(Entries(t.kids[c]), e)
  {
    hide Shaped, Entries, Before;
    var q := path + t.prefix;
    EntryBelow(t, e);
    EntryInKid(t, path, c, e);
    forall x | x in Entries(t)
      ensures |q| < |x.0| && x.0[|q|] in t.kids
      ensures |q| < |x.0| && x.0[|q|] > c ==> Before(e.0, x.0)
      ensures |q| < |x.0| && x.0[|q|] < c ==> !Before(e.0, x.0)
      ensures |q| < |x.0| && (x.0[|q|] == c <==> x in Entries(t.kids[c]))
    {
      KeysFollowPath(t, path, x);
      KeysFollowPath(t, path, e);
      if x.0[|q|] > c { OrderedAt(q, e.0, x.0); }
      if x.0[|q|] < c { OrderedStrictly(q, x.0, e.0); }
      if x in Entries(t.kids[c]) { EntryInKid(t, path, c, x); }
    }
    forall b: Byte | b in t.kids && b < c ensures !IsLeast(Entries(t), e) {
      KidShaped(t, path, b);
      var x := NotEmpty(t.kids[b], q + [b]);
      EntryBelow(t, x);
      EntryInKid(t, path, b, x);
    }
    forall x | x in Entries(t.kids[c]) ensures x in Entries(t) { EntryBelow(t, x); }
  }

  lemma OrderedStrictly(q: Key, a: Key, b: Key)
    requires q <= a && q <= b && |q| < |a| && |q| < |b| && a[|q|] < b[|q|]
    ensures !Before(b, a)
  {
    assert a[..|q|] == q == b[..|q|];
    NotAfter(a, b, |q|);
  }

  /** Where all nodes are in order, the first leaf is the least. */
  lemma {:induction false} TidyFirst(mem: map<Ptr, Cell>, t: Tree, path: Key)
    requires Stands(mem, t, path) && TidyMem(mem)
    ensures FirstIsLeast(mem, t)
    decreases t
  {
    hide *;
    StandsParts(mem, t, path);
    HeldAt(mem, t);
    if t.Inner? {
      InnerFacts(mem, t, path);
      TidyAt(mem, t.at);
      var n := mem[t.at].node;
      var c := FirstOfTidy(n);
      KidStands(mem, t, path, c);
      TidyFirst(mem, t.kids[c], path + t.prefix + [c]);
      FirstBelow(mem, t, c);
    } else {
      LeafIsLeast(mem, t, (t.key, t.value));
    }
  }

  lemma HeldAt(mem: map<Ptr, Cell>, t: Tree)
    requires Holds(mem, t)
    ensures t.at in mem && (t.Inner? <==> mem[t.at].NodeCell?)
  {
    hide NodeHolds;
  }

  lemma FirstOfTidy(n: Node) returns (c: Byte)
    requires NodeOk(n) && Tidy(n)
    ensures Sized(n) && IsFirst(n, c) && c in Kids(n) && forall b: Byte :: b in Kids(n) ==> c <= b
  {
    hide Kids;
    if IsList(n) {
      FirstInList(n);
      c := n.keys[0];
    } else {
      var some := SomeKid(n);
      c := LeastByte(Kids(n).Keys, some);
    }
  }

  lemma {:induction false} LeastByte(s: set<Byte>, some: Byte) returns (c: Byte)
    requires some in s
    ensures c in s && forall b: Byte :: b in s ==> c <= b
    decreases some
  {
    if exists b: Byte :: b in s && b < some {
      var b: Byte :| b in s && b < some;
      c := LeastByte(s, b);
    } else {
      c := some;
    }
  }

  // ---------------------------------------------------------------- what one change does to the order

  /** The key bytes of a list layout, in the order of the list. */
  ghost function Bytes(n: Node): seq<Byte> {
    if IsList(n) then n.keys[..n.numChildren] else []
  }

  ghost function PutByte(s: seq<Byte>, c: Byte, signed: bool): seq<Byte> {
    if s == [] then [c]
    else if Precedes(c, s[0], signed) then [c] + s
    else [s[0]] + PutByte(s[1..], c, signed)
  }

  ghost function DropByte(s: seq<Byte>, c: Byte): seq<Byte> {
    if s == [] then [] else if s[0] == c then s[1..] else [s[0]] + DropByte(s[1..], c)
  }

  lemma FirstAndRest(s: seq<Byte>, k: nat, mid: seq<Byte>)
    requires 0 < k <= |s|
    ensures [s[0]] + (s[1..][..k - 1] + mid + s[1..][k - 1..]) == s[..k] + mid + s[k..]
    ensures k < |s| ==> [s[0]] + (s[1..][..k - 1] + s[1..][k..]) == s[..k] + s[k + 1..]
  {
    assert s[..k] == [s[0]] + s[1..][..k - 1] && s[k..] == s[1..][k - 1..];
    if k < |s| { assert s[k + 1..] == s[1..][k..]; }
  }

  lemma {:induction false} PutAt(s: seq<Byte>, idx: nat, c: Byte, signed: bool)
    requires idx <= |s| && (forall i :: 0 <= i < idx ==> !Precedes(c, s[i], signed))
    requires idx < |s| ==> Precedes(c, s[idx], signed)
    ensures PutByte(s, c, signed) == s[..idx] + [c] + s[idx..]
    decreases |s|
  {
    if idx > 0 {
      var t := s[1..];
      assert forall i :: 0 <= i < |t| ==> t[i] == s[i + 1];
      PutAt(t, idx - 1, c, signed);
      FirstAndRest(s, idx, [c]);
    }
  }

  lemma {:induction false} DropAt(s: seq<Byte>, pos: nat)
    requires pos < |s| && forall i :: 0 <= i < pos ==> s[i] != s[pos]
    ensures DropByte(s, s[pos]) == s[..pos] + s[pos + 1..]
    decreases |s|
  {
    if pos > 0 {
      var t := s[1..];
      assert t[pos - 1] == s[pos] && forall i :: 0 <= i < pos - 1 ==> t[i] == s[i + 1];
      DropAt(t, pos - 1);
      FirstAndRest(s, pos, []);
    }
  }

  lemma AddedBytes(n: Node, r: Node, c: Byte, child: Ptr, signed: bool)
    requires ListAdded(n, r, c, child, signed)
    ensures IsList(n) && IsList(r) && Bytes(r) == PutByte(Bytes(n), c, signed)
  {
    var idx: nat :| Inserted(n, r, idx, c, child) && IsPlace(n, idx, c, signed);
    InsertedSeq(n.keys, n.numChildren, r.keys, idx, c);
    hide PutByte;
    PutAt(Bytes(n), idx, c, signed);
  }

  lemma InsertedSeq(s: seq<Byte>, n: nat, t: seq<Byte>, idx: nat, c: Byte)
    requires idx <= n <= |s| && n < |t| && t[idx] == c
    requires forall i :: 0 <= i < idx ==> t[i] == s[i]
    requires forall i :: idx < i < n + 1 ==> t[i] == s[i - 1]
    ensures t[..n + 1] == s[..n][..idx] + [c] + s[..n][idx..]
  {
  }

  lemma DroppedBytes(n: Node, r: Node, pos: nat)
    requires LayoutOk(n) && ListDropped(n, r, pos)
    ensures IsList(n) && IsList(r) && pos < n.numChildren && Bytes(r) == DropByte(Bytes(n), n.keys[pos])
  {
    hide Kids, DropByte;
    ListFacts(n);
    DroppedSeq(n.keys, n.numChildren, r.keys, pos);
    assert Bytes(n)[pos] == n.keys[pos];
    DropAt(Bytes(n), pos);
  }

  lemma DroppedSeq(s: seq<Byte>, n: nat, t: seq<Byte>, pos: nat)
    requires pos < n <= |s| && n - 1 <= |t|
    requires forall i :: 0 <= i < pos ==> t[i] == s[i]
    requires forall i :: pos <= i < n - 1 ==> t[i] == s[i + 1]
    ensures t[..n - 1] == s[..n][..pos] + s[..n][pos + 1..]
  {
  }

  /** The node at n, with a child for c more, is at ref now. */
  ghost predicate NodeGained(mem: map<Ptr, Cell>, n: Ptr, mem': map<Ptr, Cell>, ref: Ptr, c: Byte) {
    && n in mem && mem[n].NodeCell? && ref in mem' && mem'[ref].NodeCell?
    && var node, r := mem[n].node, mem'[ref].node;
       && Sized(node) && r.kind == GrowsTo(node.kind, |Kids(node)|)
       && (IsList(node) && IsList(r) ==>
           Bytes(r) == PutByte(Bytes(node), c, node.kind.Kind16? || |Kids(node)| == 4))
  }

  /** The node at n, without the child for c, is at ref now. */
  ghost predicate NodeLost(mem: map<Ptr, Cell>, n: Ptr, mem': map<Ptr, Cell>, ref: Ptr, c: Byte) {
    && n in mem && mem[n].NodeCell? && ref in mem' && mem'[ref].NodeCell?
    && var node, r := mem[n].node, mem'[ref].node;
       && Sized(node) && r.kind == ShrinksTo(node.kind, |Kids(node)|)
       && (IsList(node) ==> IsList(r) && Bytes(r) == DropByte(Bytes(node), c))
  }

  lemma GainedIs(mem: map<Ptr, Cell>, n: Ptr, mem': map<Ptr, Cell>, ref: Ptr, c: Byte, child: Ptr)
    requires n in mem && mem[n].NodeCell? && ref in mem' && mem'[ref].NodeCell?
    requires var node, r := mem[n].node, mem'[ref].node;
      && Sized(node) && r.kind == GrowsTo(node.kind, |Kids(node)|)
      && (IsList(node) && IsList(r) ==> ListAdded(node, r, c, child, node.kind.Kind16? || |Kids(node)| == 4))
    ensures NodeGained(mem, n, mem', ref, c)
  {
    hide Kids, Bytes, ListAdded;
    var node, r := mem[n].node, mem'[ref].node;
    if IsList(node) && IsList(r) {
      AddedBytes(node, r, c, child, node.kind.Kind16? || |Kids(node)| == 4);
    }
  }

  lemma LostIs(mem: map<Ptr, Cell>, n: Ptr, mem': map<Ptr, Cell>, ref: Ptr, c: Byte, slot: nat)
    requires n in mem && mem[n].NodeCell? && ref in mem' && mem'[ref].NodeCell? && LayoutOk(mem[n].node)
    requires var node, r := mem[n].node, mem'[ref].node;
      && Sized(node) && c in Kids(node) && slot == SlotOf(node, c) && r.kind == ShrinksTo(node.kind, |Kids(node)|)
      && (IsList(node) ==> ListDropped(node, r, slot))
    ensures NodeLost(mem, n, mem', ref, c)
  {
    hide Kids, Bytes, ListDropped;
    var node, r := mem[n].node, mem'[ref].node;
    if IsList(node) {
      SlotIsKey(node, c);
      DroppedBytes(node, r, slot);
    }
  }

  // ---------------------------------------------------------------- one change in memory

  /** A key is bound: if all was in order, all is. */
  ghost predicate KeepsTidy(mem: map<Ptr, Cell>, key: Key, mem': map<Ptr, Cell>) {
    TidyMem(mem) && Low(key) ==> TidyMem(mem')
  }

  lemma LeafStored(mem: map<Ptr, Cell>, p: Ptr, key: Key, value: Value)
    ensures KeepsTidy(mem, key, mem[p := LeafCell(key, value)])
  {
    hide Low, Tidy;
  }

  lemma ForkStored(mem: map<Ptr, Cell>, p: Ptr, key: Key, value: Value, q: Ptr, n: Node, b: Byte, x: Ptr, c: Byte,
                   y: Ptr)
    requires ForkOf(n, b, x, c, y)
    requires TidyMem(mem) && Low(key) ==> b < 128 && c < 128
    ensures KeepsTidy(mem, key, mem[p := LeafCell(key, value)][q := NodeCell(n)])
  {
    hide Low, Tidy, ForkOf;
    if TidyMem(mem) && Low(key) { TidyFork(n, b, x, c, y); }
  }

  lemma KeepsTwice(mem: map<Ptr, Cell>, key: Key, mem1: map<Ptr, Cell>, mem2: map<Ptr, Cell>)
    requires KeepsTidy(mem, key, mem1) && KeepsTidy(mem1, key, mem2)
    ensures KeepsTidy(mem, key, mem2)
  {
  }

  /** The same key bytes in the same places. */
  ghost predicate SameOrder(n: Node, r: Node) {
    && Sized(n) && Sized(r) && r.kind == n.kind && r.keys == n.keys && r.numChildren == n.numChildren
    && Kids(r).Keys == Kids(n).Keys
  }

  lemma SameOrderIs(n: Node, r: Node)
    requires Sized(n) && Sized(r) && r.kind == n.kind && r.keys == n.keys && r.numChildren == n.numChildren
    requires Kids(r).Keys == Kids(n).Keys
    ensures SameOrder(n, r)
  {
    hide Kids;
  }

  /** A node is stored whose order is that of the one it replaces. */
  lemma SameOrderStored(mem: map<Ptr, Cell>, n: Ptr, r: Node, key: Key)
    requires n in mem && mem[n].NodeCell? && SameOrder(mem[n].node, r)
    ensures KeepsTidy(mem, key, mem[n := NodeCell(r)])
    ensures TidyMem(mem) ==> TidyMem(mem[n := NodeCell(r)])
  {
    hide Low, Tidy, Kids;
    if TidyMem(mem) {
      TidyAt(mem, n);
      TidySame(mem[n].node, r);
      TidyStore(mem, n, NodeCell(r));
    }
  }

  lemma KeepsOnwards(mem: map<Ptr, Cell>, key: Key, mem1: map<Ptr, Cell>, mem2: map<Ptr, Cell>)
    requires KeepsTidy(mem, key, mem1) && (TidyMem(mem) && Low(key) ==> KeepsTidy(mem1, key, mem2))
    ensures KeepsTidy(mem, key, mem2)
  {
  }

  lemma ChildStored(mem: map<Ptr, Cell>, n: Ptr, c: Byte, slot: nat, child: Ptr, key: Key)
    requires n in mem && mem[n].NodeCell? && LayoutOk(mem[n].node) && Sized(mem[n].node)
    requires c in Kids(mem[n].node) && slot == SlotOf(mem[n].node, c) && slot < |mem[n].node.children| && child != NULL
    ensures KeepsTidy(mem, key, mem[n := NodeCell(SetChild(mem[n].node, slot, child))])
    ensures TidyMem(mem) ==> TidyMem(mem[n := NodeCell(SetChild(mem[n].node, slot, child))])
  {
    hide LayoutOk, Kids, SlotOf;
    SetChildMeans(mem[n].node, c, slot, child);
    var r := SetChild(mem[n].node, slot, child);
    LayoutSized(r);
    assert Kids(r).Keys == Kids(mem[n].node).Keys;
    SameOrderIs(mem[n].node, r);
    SameOrderStored(mem, n, r, key);
  }

  /** A leaf and the node that gained it are stored. */
  lemma GainStored(mem: map<Ptr, Cell>, l: Ptr, key: Key, value: Value, n: Ptr, r: Node, c: Byte, ref: Ptr)
    requires n in mem && l != n && mem[n].NodeCell? && Sized(mem[n].node) && c !in Kids(mem[n].node)
    requires Added(mem[n].node, r, c, l) && r.kind == GrowsTo(mem[n].node.kind, |Kids(mem[n].node)|)
    requires IsList(mem[n].node) && IsList(r) ==>
      ListAdded(mem[n].node, r, c, l, mem[n].node.kind.Kind16? || |Kids(mem[n].node)| == 4)
    requires Low(key) ==> c < 128
    ensures var mem1 := mem[l := LeafCell(key, value)];
      KeepsTidy(mem, key, mem1[n := NodeCell(r)]) && KeepsTidy(mem, key, (mem1 - {n})[ref := NodeCell(r)])
  {
    hide Low, Tidy, Kids, Added, ListAdded;
    var mem1 := mem[l := LeafCell(key, value)];
    if TidyMem(mem) && Low(key) {
      TidyAt(mem, n);
      TidyAdded(mem[n].node, r, c, l);
      TidyStore(mem, l, LeafCell(key, value));
      TidyStore(mem1, n, NodeCell(r));
      TidyWithout(mem1, n);
      TidyStore(mem1 - {n}, ref, NodeCell(r));
    }
  }

  lemma LossStored(mem: map<Ptr, Cell>, n: Ptr, r: Node, c: Byte, slot: nat, ref: Ptr)
    requires n in mem && mem[n].NodeCell? && Sized(mem[n].node) && Removed(mem[n].node, r, c)
    requires if IsList(mem[n].node) then ListDropped(mem[n].node, r, slot) else Ascends(r)
    ensures TidyMem(mem) ==> TidyMem(mem[n := NodeCell(r)]) && TidyMem((mem - {n})[ref := NodeCell(r)])
  {
    hide Low, Tidy, Kids, Removed, ListDropped, Ascends;
    if TidyMem(mem) {
      TidyAt(mem, n);
      TidyRemoved(mem[n].node, r, c, slot);
      TidyStore(mem, n, NodeCell(r));
      TidyWithout(mem, n);
      TidyStore(mem - {n}, ref, NodeCell(r));
    }
  }

  // ---------------------------------------------------------------- the node a key belongs to

  /** A fresh Node4 of two children. */
  ghost predicate IsFork(mem: map<Ptr, Cell>, ref: Ptr) {
    && ref in mem && mem[ref].NodeCell?
    && var n := mem[ref].node; n.kind.Kind4? && IsList(n) && Ascends(n)
  }

  lemma ForkIs(mem: map<Ptr, Cell>, ref: Ptr, n: Node)
    requires ref in mem && mem[ref] == NodeCell(n) && n.kind.Kind4? && Sized(n) && Ascends(n)
    ensures IsFork(mem, ref)
  {
  }

  /** The key follows the path of the node, which has no child for its next byte. */
  ghost predicate IsGain(t: Tree, path: Key, key: Key) {
    && t.Inner? && path + t.prefix <= key && |path| + |t.prefix| < |key|
    && key[|path| + |t.prefix|] !in t.kids
  }

  /** The key is that of a leaf right below the node, and more than two children are there. */
  ghost predicate IsLoss(t: Tree, path: Key, key: Key) {
    && t.Inner? && path + t.prefix <= key && |path| + |t.prefix| < |key| && |t.kids| > 2
    && var b := key[|path| + |t.prefix|]; b in t.kids && t.kids[b].Leaf? && t.kids[b].key == key
  }

  lemma NoGain(t: Tree, path: Key, key: Key)
    requires t.Leaf?
    ensures !IsGain(t, path, key) && !IsLoss(t, path, key)
  {
  }

  lemma OffPath(t: Tree, path: Key, key: Key, diff: nat)
    requires t.Inner? && diff < |t.prefix| && |path| + diff < |key| && key[|path| + diff] != t.prefix[diff]
    ensures !IsGain(t, path, key)
  {
    if path + t.prefix <= key { SliceOf(path, t.prefix, key); }
  }

  lemma NoGainAt(t: Tree, path: Key, key: Key, c: Byte)
    requires t.Inner? && c in t.kids && |path| + |t.prefix| < |key| && c == key[|path| + |t.prefix|]
    ensures !IsGain(t, path, key)
  {
  }

  lemma LossParts(t: Tree, path: Key, key: Key)
    requires IsLoss(t, path, key)
    ensures t.Inner? && |path| + |t.prefix| < |key| && |t.kids| > 2 && HasKey(Entries(t), key)
    ensures var b := key[|path| + |t.prefix|]; b in t.kids && t.kids[b].Leaf?
  {
    var b := key[|path| + |t.prefix|];
    EntryBelow(t, (key, t.kids[b].value));
    assert (key, t.kids[b].value) in Entries(t);
  }

  lemma FirstOf(n: Node, c: Byte)
    requires Sized(n) && c in Kids(n) && (IsList(n) ==> 0 < n.numChildren && c == n.keys[0])
    requires Ascends(n) ==> forall b: Byte :: b in Kids(n) ==> c <= b
    ensures IsFirst(n, c)
  {
    hide Kids;
  }

  lemma SameKidBytes(n: Node, t: Tree, n': Node, t': Tree)
    requires t.Inner? && t'.Inner? && NodeHolds(n, t) && NodeHolds(n', t') && t'.kids.Keys == t.kids.Keys
    ensures Sized(n) && Sized(n') && Kids(n').Keys == Kids(n).Keys
  {
    hide Kids, LayoutOk;
    LayoutSized(n);
    LayoutSized(n');
  }

  lemma StillLost(mem: map<Ptr, Cell>, n: Ptr, mem1: map<Ptr, Cell>, ref: Ptr, c: Byte, l: Ptr)
    requires NodeLost(mem, n, mem1, ref, c) && ref in mem1 - {l}
    ensures NodeLost(mem, n, mem1 - {l}, ref, c)
  {
    hide Kids, Bytes;
  }
}
