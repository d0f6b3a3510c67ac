/** The inner nodes of the adaptive radix tree: four layouts of one thing, a finite map from key
    bytes to child pointers, and the operations that add and remove children and so grow a node
    into the next larger layout or shrink it into the next smaller one. */
module ArtNode {
  import opened SetFacts

  type Byte = b: int | 0 <= b < 256

  /** An address; 0 is the null pointer. */
  type Ptr = nat
  const NULL: Ptr := 0

  const MAX_PREFIX_LEN: nat := 10

  datatype Kind = Kind4 | Kind16 | Kind48 | Kind256

  /** `keys` holds key bytes in Node4 and Node16, and child positions plus one in Node48. */
  datatype Node = Node(kind: Kind, numChildren: nat, partialLen: nat, partial: seq<Byte>,
                       keys: seq<Byte>, children: seq<Ptr>)

  function Capacity(kind: Kind): nat {
    match kind case Kind4 => 4 case Kind16 => 16 case Kind48 => 48 case Kind256 => 256
  }

  function KeySlots(kind: Kind): nat {
    match kind case Kind4 => 4 case Kind16 => 16 case Kind48 => 256 case Kind256 => 0
  }

  /** The fewest children a node of this layout has between operations. */
  function MinChildren(kind: Kind): nat {
    match kind case Kind4 => 2 case Kind16 => 4 case Kind48 => 13 case Kind256 => 38
  }

  function Zeros(n: nat): (s: seq<Byte>)
    ensures |s| == n && forall i :: 0 <= i < n ==> s[i] == 0
  {
    seq(n, i => 0)
  }

  function Nulls(n: nat): (s: seq<Ptr>)
    ensures |s| == n && forall i :: 0 <= i < n ==> s[i] == NULL
  {
    seq(n, i => NULL)
  }

  function AllocNode(kind: Kind): Node {
    Node(kind, 0, 0, Zeros(MAX_PREFIX_LEN), Zeros(KeySlots(kind)), Nulls(Capacity(kind)))
  }

  /** Position of c among the first n bytes of s, or n. */
  function IndexOf(s: seq<Byte>, n: nat, c: Byte): (i: nat)
    requires n <= |s|
    ensures i <= n
    ensures i < n ==> s[i] == c
    ensures forall j :: 0 <= j < i ==> s[j] != c
  {
    if n == 0 then 0
    else
      var i := IndexOf(s, n - 1, c);
      if i < n - 1 || s[n - 1] == c then i else n
  }

  /** Array bounds of the layout. */
  predicate Sized(n: Node) {
    && |n.keys| == KeySlots(n.kind)
    && |n.children| == Capacity(n.kind)
    && |n.partial| == MAX_PREFIX_LEN
    && ((n.kind.Kind4? || n.kind.Kind16?) ==> n.numChildren <= Capacity(n.kind))
    && (n.kind.Kind48? ==> forall b :: 0 <= b < 256 ==> n.keys[b] <= 48)
  }

  /** The child slot that belongs to key byte c; out of range when there is none. */
  function SlotOf(n: Node, c: Byte): (i: int)
    requires Sized(n)
    ensures -1 <= i <= |n.children|
  {
    match n.kind
    case Kind48 => n.keys[c] - 1
    case Kind256 => c
    case _ => var i := IndexOf(n.keys, n.numChildren, c); if i < n.numChildren then i else -1
  }

  function ChildOf(n: Node, c: Byte): Ptr
    requires Sized(n)
  {
    var i := SlotOf(n, c);
    if 0 <= i < |n.children| then n.children[i] else NULL
  }

  /** What a node means: its children by key byte. */
  function Kids(n: Node): (m: map<Byte, Ptr>)
    requires Sized(n)
    ensures forall b: Byte :: b in m <==> ChildOf(n, b) != NULL
    ensures forall b :: b in m ==> m[b] == ChildOf(n, b)
  {
    map b: Byte | 0 <= b < 256 && ChildOf(n, b) != NULL :: ChildOf(n, b)
  }

  ghost predicate Distinct(s: seq<Byte>, n: nat)
    requires n <= |s|
  {
    forall i, j :: 0 <= i < j < n ==> s[i] != s[j]
  }

  /** Node4 and Node16: parallel lists of distinct key bytes and non-null children. */
  ghost predicate ListOk(n: Node)
    requires Sized(n) && (n.kind.Kind4? || n.kind.Kind16?)
  {
    Distinct(n.keys, n.numChildren) && forall i :: 0 <= i < n.numChildren ==> n.children[i] != NULL
  }

  /** Node48: key bytes and occupied child slots correspond one to one. */
  ghost predicate IndexOk(n: Node)
    requires Sized(n) && n.kind.Kind48?
  {
    && (forall b: Byte, c: Byte :: n.keys[b] == n.keys[c] != 0 ==> b == c)
    && (forall b: Byte :: n.keys[b] != 0 ==> n.children[n.keys[b] - 1] != NULL)
    && (forall i :: 0 <= i < 48 && n.children[i] != NULL ==> exists b: Byte :: n.keys[b] == i + 1)
  }

  /** The invariant of a layout.  The child counter is eight bits wide, so a full Node256 counts 0. */
  ghost predicate LayoutOk(n: Node) {
    && Sized(n)
    && n.numChildren == (if n.kind.Kind256? then |Kids(n)| % 256 else |Kids(n)|)
    && match n.kind
       case Kind48 => IndexOk(n)
       case Kind256 => true
       case _ => ListOk(n)
  }

  ghost predicate NodeOk(n: Node) {
    LayoutOk(n) && MinChildren(n.kind) <= |Kids(n)|
  }

  function Min(a: int, b: int): int { if a < b then a else b }

  /** The stored part of the compressed path. */
  function Stored(n: Node): seq<Byte>
    requires Sized(n)
  {
    n.partial[..Min(n.partialLen, MAX_PREFIX_LEN)]
  }

  predicate SameHeader(m: Node, n: Node)
    requires Sized(m) && Sized(n)
  {
    m.partialLen == n.partialLen && Stored(m) == Stored(n)
  }

  // ----- find_child -----

  method FindKey(keys: seq<Byte>, n: nat, c: Byte) returns (i: nat)
    requires n <= |keys|
    ensures i == IndexOf(keys, n, c)
  {
    i := 0;
    while i < n && keys[i] != c
      invariant i <= n
      invariant forall j :: 0 <= j < i ==> keys[j] != c
    {
      i := i + 1;
    }
  }

  /** The slot of the child for byte c, or -1. */
  method FindChild(n: Node, c: Byte) returns (slot: int)
    requires LayoutOk(n)
    ensures c in Kids(n) ==> slot == SlotOf(n, c) && 0 <= slot < |n.children| && n.children[slot] == Kids(n)[c]
    ensures c !in Kids(n) ==> slot == -1
  {
    match n.kind
    case Kind48 =>
      var pos: int := n.keys[c];
      slot := pos - 1;
    case Kind256 =>
      slot := if n.children[c] != NULL then c else -1;
    case _ =>
      var i := FindKey(n.keys, n.numChildren, c);
      slot := if i < n.numChildren then i else -1;
  }

  // ----- list layouts -----

  lemma ListKid(n: Node, i: nat)
    requires Sized(n) && (n.kind.Kind4? || n.kind.Kind16?) && ListOk(n) && i < n.numChildren
    ensures n.keys[i] in Kids(n) && Kids(n)[n.keys[i]] == n.children[i]
  {
    assert IndexOf(n.keys, n.numChildren, n.keys[i]) == i;
  }

  /** A list layout means the map m if its entries are exactly those of m. */
  lemma ListMeans(n: Node, m: map<Byte, Ptr>)
    requires Sized(n) && (n.kind.Kind4? || n.kind.Kind16?) && ListOk(n)
    requires forall i :: 0 <= i < n.numChildren ==> n.keys[i] in m && m[n.keys[i]] == n.children[i]
    requires forall b :: b in m ==> exists i :: 0 <= i < n.numChildren && n.keys[i] == b
    ensures Kids(n) == m
  {
    forall b: Byte | b in m
      ensures b in Kids(n) && Kids(n)[b] == m[b]
    {
      var i :| 0 <= i < n.numChildren && n.keys[i] == b;
      ListKid(n, i);
    }
    forall b: Byte | b in Kids(n)
      ensures b in m
    {
      assert n.keys[IndexOf(n.keys, n.numChildren, b)] == b;
    }
  }

  function MemMove<T>(s: seq<T>, dst: nat, src: nat, n: nat): (r: seq<T>)
    requires dst + n <= |s| && src + n <= |s|
    ensures |r| == |s|
    ensures forall i :: 0 <= i < |s| ==> r[i] == if dst <= i < dst + n then s[i - dst + src] else s[i]
  {
    s[..dst] + s[src..src + n] + s[dst + n..]
  }

  /** Insert into a list layout with room, at any position. */
  method InsertAt(n: Node, idx: nat, c: Byte, child: Ptr) returns (r: Node)
    requires LayoutOk(n) && (n.kind.Kind4? || n.kind.Kind16?)
    requires n.numChildren < Capacity(n.kind) && idx <= n.numChildren
    requires c !in Kids(n) && child != NULL
    ensures LayoutOk(r) && r.kind == n.kind && SameHeader(r, n)
    ensures Kids(r) == Kids(n)[c := child] && Inserted(n, r, idx, c, child)
  {
    hide Kids, IndexOf;
    assert ListOk(n);
    r := Insertion(n, idx, c, child);
    assert SameHeader(r, n);
    InsertedMeans(n, r, idx, c, child);
  }

  function Insertion(n: Node, idx: nat, c: Byte, child: Ptr): (r: Node)
    requires IsList(n) && n.numChildren < Capacity(n.kind) && idx <= n.numChildren
    ensures Inserted(n, r, idx, c, child) && r.kind == n.kind
    ensures r.partial == n.partial && r.partialLen == n.partialLen
  {
    var keys := MemMove(n.keys, idx + 1, idx, n.numChildren - idx);
    var children := MemMove(n.children, idx + 1, idx, n.numChildren - idx);
    n.(keys := keys[idx := c], children := children[idx := child], numChildren := n.numChildren + 1)
  }

  predicate IsList(n: Node) {
    Sized(n) && (n.kind.Kind4? || n.kind.Kind16?)
  }

  ghost predicate Inserted(n: Node, r: Node, idx: nat, c: Byte, child: Ptr) {
    && IsList(n) && IsList(r) && idx <= n.numChildren && r.numChildren == n.numChildren + 1
    && r.keys[idx] == c && r.children[idx] == child
    && (forall i :: 0 <= i < idx ==> r.keys[i] == n.keys[i] && r.children[i] == n.children[i])
    && (forall i :: idx < i < r.numChildren ==> r.keys[i] == n.keys[i - 1] && r.children[i] == n.children[i - 1])
  }

  lemma InsertedMeans(n: Node, r: Node, idx: nat, c: Byte, child: Ptr)
    requires Inserted(n, r, idx, c, child) && r.kind == n.kind && ListOk(n)
    requires n.numChildren == |Kids(n)|
    requires c !in Kids(n) && child != NULL
    ensures LayoutOk(r) && Kids(r) == Kids(n)[c := child]
  {
    hide *;
    InsertedBounds(n, r, idx, c, child);
    var m := Kids(n)[c := child];
    InsertedList(n, r, idx, c, child);
    forall i | 0 <= i < r.numChildren
      ensures r.keys[i] in m && m[r.keys[i]] == r.children[i]
    {
      InsertedEntry(n, r, idx, c, child, i);
    }
    forall b | b in m
      ensures exists i :: 0 <= i < r.numChildren && r.keys[i] == b
    {
      var i := InsertedIndex(n, r, idx, c, child, b);
    }
    ListMeans(r, m);
    assert |m| == |Kids(n)| + 1;
    ListLayout(r);
  }

  lemma InsertedBounds(n: Node, r: Node, idx: nat, c: Byte, child: Ptr)
    requires Inserted(n, r, idx, c, child)
    ensures Sized(n) && Sized(r) && IsList(r) && (r.kind.Kind4? || r.kind.Kind16?)
    ensures r.numChildren == n.numChildren + 1 && r.numChildren <= |r.keys| && r.numChildren <= |r.children|
  {
  }

  lemma ListLayout(r: Node)
    requires IsList(r) && ListOk(r) && r.numChildren == |Kids(r)|
    ensures LayoutOk(r)
  {
    hide Kids;
  }

  lemma InsertedList(n: Node, r: Node, idx: nat, c: Byte, child: Ptr)
    requires Inserted(n, r, idx, c, child) && ListOk(n)
    requires c !in Kids(n) && child != NULL
    ensures IsList(r) && ListOk(r)
  {
    hide Kids, IndexOf;
    forall i | 0 <= i < n.numChildren
      ensures n.keys[i] != c
    {
      ListKid(n, i);
    }
  }

  lemma InsertedEntry(n: Node, r: Node, idx: nat, c: Byte, child: Ptr, i: nat)
    requires Inserted(n, r, idx, c, child) && ListOk(n)
    requires c !in Kids(n) && child != NULL && i < r.numChildren
    ensures var m := Kids(n)[c := child]; r.keys[i] in m && m[r.keys[i]] == r.children[i]
  {
    hide Kids, IndexOf;
    if i < idx { ListKid(n, i); } else if i > idx { ListKid(n, i - 1); }
  }

  lemma InsertedIndex(n: Node, r: Node, idx: nat, c: Byte, child: Ptr, b: Byte) returns (i: nat)
    requires Inserted(n, r, idx, c, child)
    requires b == c || b in Kids(n)
    ensures i < r.numChildren && r.keys[i] == b
  {
    hide Kids, IndexOf;
    if b == c {
      i := idx;
    } else {
      i := KidIndex(n, b);
      i := if i < idx then i else i + 1;
    }
  }

  lemma KidIndex(n: Node, b: Byte) returns (i: nat)
    requires Sized(n) && (n.kind.Kind4? || n.kind.Kind16?) && b in Kids(n)
    ensures i < n.numChildren && n.keys[i] == b
  {
    i := IndexOf(n.keys, n.numChildren, b);
  }

  // ----- the order of lists -----

  /** Key bytes ascend as unsigned numbers; the layouts without a list are in order by themselves. */
  ghost predicate Ascends(n: Node) {
    IsList(n) ==> forall i, j :: 0 <= i < j < n.numChildren ==> n.keys[i] < n.keys[j]
  }

  /** How `add_child4` compares bytes, and how the SSE instruction of `add_child16` does. */
  predicate Precedes(b: Byte, c: Byte, signed: bool) {
    if signed then Signed(b) < Signed(c) else b < c
  }

  /** The place in front of the first key byte that c precedes. */
  ghost predicate IsPlace(n: Node, idx: nat, c: Byte, signed: bool) {
    && IsList(n) && idx <= n.numChildren
    && (forall i :: 0 <= i < idx ==> !Precedes(c, n.keys[i], signed))
    && (idx < n.numChildren ==> Precedes(c, n.keys[idx], signed))
  }

  /** The list r is the list n with one entry more, at its place. */
  ghost predicate ListAdded(n: Node, r: Node, c: Byte, child: Ptr, signed: bool) {
    exists idx: nat :: Inserted(n, r, idx, c, child) && IsPlace(n, idx, c, signed)
  }

  /** The list r is the list n without the entry at pos. */
  ghost predicate ListDropped(n: Node, r: Node, pos: nat) {
    && IsList(n) && IsList(r) && pos < n.numChildren && r.numChildren == n.numChildren - 1
    && (forall i :: 0 <= i < pos ==> r.keys[i] == n.keys[i] && r.children[i] == n.children[i])
    && (forall i :: pos <= i < r.numChildren ==> r.keys[i] == n.keys[i + 1] && r.children[i] == n.children[i + 1])
  }

  /** A list of another layout with the same entries. */
  ghost predicate SameList(n: Node, r: Node) {
    && IsList(n) && IsList(r) && r.numChildren == n.numChildren
    && forall i :: 0 <= i < n.numChildren ==> r.keys[i] == n.keys[i] && r.children[i] == n.children[i]
  }

  lemma AddedToCopy(n: Node, m: Node, r: Node, c: Byte, child: Ptr, signed: bool)
    requires SameList(n, m) && ListAdded(m, r, c, child, signed)
    ensures ListAdded(n, r, c, child, signed)
  {
    var idx: nat :| Inserted(m, r, idx, c, child) && IsPlace(m, idx, c, signed);
    assert Inserted(n, r, idx, c, child) && IsPlace(n, idx, c, signed);
  }

  lemma DroppedToCopy(n: Node, m: Node, r: Node, pos: nat)
    requires ListDropped(n, m, pos) && SameList(m, r)
    ensures ListDropped(n, r, pos)
  {
  }

  /** Some key byte is smaller than c, or some one is not, as the signed comparison sees it and as it should. */
  ghost predicate Misplaced(n: Node, c: Byte) {
    IsList(n) && if c < 128
      then HasByteFrom(n, 128) && !HasByteBetween(n, c, 128)
      else HasByteBetween(n, -1, 128)
  }

  ghost predicate HasByteFrom(n: Node, lo: int)
    requires IsList(n)
  {
    exists i :: 0 <= i < n.numChildren && n.keys[i] >= lo
  }

  ghost predicate HasByteBetween(n: Node, lo: int, hi: int)
    requires IsList(n)
  {
    exists i :: 0 <= i < n.numChildren && lo < n.keys[i] < hi
  }

  /** Adding to an ascending list keeps it ascending, but for the signed comparison: that misplaces a byte from 128
      on if there are smaller ones, and a byte below 128 if there are some from 128 on, and none between. */
  lemma AddKeepsOrder(n: Node, r: Node, c: Byte, child: Ptr, signed: bool)
    requires IsList(n) && Ascends(n) && ListAdded(n, r, c, child, signed)
    requires forall i :: 0 <= i < n.numChildren ==> n.keys[i] != c
    ensures Ascends(r) <==> !(signed && Misplaced(n, c))
  {
    var idx: nat :| Inserted(n, r, idx, c, child) && IsPlace(n, idx, c, signed);
    if signed && Misplaced(n, c) {
      MisplacedAt(n, r, idx, c, child);
    } else {
      PlacedAt(n, idx, c, signed);
      InsertedAscends(n, r, idx, c, child);
    }
  }

  lemma PlacedAt(n: Node, idx: nat, c: Byte, signed: bool)
    requires IsList(n) && Ascends(n) && IsPlace(n, idx, c, signed) && !(signed && Misplaced(n, c))
    requires forall i :: 0 <= i < n.numChildren ==> n.keys[i] != c
    ensures forall i :: 0 <= i < idx ==> n.keys[i] < c
    ensures forall i :: idx <= i < n.numChildren ==> c < n.keys[i]
  {
  }

  lemma InsertedAscends(n: Node, r: Node, idx: nat, c: Byte, child: Ptr)
    requires Inserted(n, r, idx, c, child) && Ascends(n)
    requires forall i :: 0 <= i < idx ==> n.keys[i] < c
    requires forall i :: idx <= i < n.numChildren ==> c < n.keys[i]
    ensures Ascends(r)
  {
    assert forall i :: 0 <= i < r.numChildren ==>
      r.keys[i] == if i < idx then n.keys[i] else if i == idx then c else n.keys[i - 1];
  }

  lemma MisplacedAt(n: Node, r: Node, idx: nat, c: Byte, child: Ptr)
    requires Inserted(n, r, idx, c, child) && Ascends(n) && IsPlace(n, idx, c, true) && Misplaced(n, c)
    ensures !Ascends(r)
  {
    if c < 128 {
      var i :| 0 <= i < n.numChildren && n.keys[i] >= 128;
      assert idx == n.numChildren;
      assert r.keys[i] == n.keys[i] > c == r.keys[idx];
    } else {
      var i :| 0 <= i < n.numChildren && -1 < n.keys[i] < 128;
      assert n.keys[0] <= n.keys[i];
      assert idx == 0;
      assert r.keys[1] == n.keys[0] < c == r.keys[0];
    }
  }

  lemma DropKeepsOrder(n: Node, r: Node, pos: nat)
    requires ListDropped(n, r, pos) && Ascends(n)
    ensures Ascends(r)
  {
    assert forall i :: 0 <= i < r.numChildren ==> r.keys[i] == n.keys[if i < pos then i else i + 1];
  }

  // ----- add_child -----

  /** The order of Node16 insertions: SSE compares bytes as signed numbers. */
  function Signed(b: Byte): int { if b < 128 then b else b - 256 }

  /** Every layout's add has this contract; only the layout may differ. */
  ghost predicate Added(n: Node, r: Node, c: Byte, child: Ptr) {
    LayoutOk(n) && LayoutOk(r) && SameHeader(r, n) && Kids(r) == Kids(n)[c := child]
  }

  /** The scan for the place of a new key byte. */
  method FindPlace(n: Node, c: Byte, signed: bool) returns (idx: nat)
    requires IsList(n)
    ensures IsPlace(n, idx, c, signed)
  {
    idx := 0;
    while idx < n.numChildren && !Precedes(c, n.keys[idx], signed)
      invariant idx <= n.numChildren && forall i :: 0 <= i < idx ==> !Precedes(c, n.keys[i], signed)
    {
      idx := idx + 1;
    }
  }

  method AddChild4(n: Node, c: Byte, child: Ptr) returns (r: Node)
    requires LayoutOk(n) && n.kind.Kind4? && c !in Kids(n) && child != NULL
    ensures Added(n, r, c, child)
    ensures r.kind == if |Kids(n)| < 4 then Kind4 else Kind16
    ensures ListAdded(n, r, c, child, |Kids(n)| == 4)
  {
    hide Kids;
    assert n.numChildren == |Kids(n)|;
    if n.numChildren < 4 {
      var idx := FindPlace(n, c, false);
      r := InsertAt(n, idx, c, child);
    } else {
      var m := Grow4(n);
      r := AddChild16(m, c, child);
      AddedToCopy(n, m, r, c, child, true);
    }
  }

  function CopyHeader(dest: Node, src: Node): (r: Node)
    requires Sized(dest) && Sized(src)
    ensures r == dest.(numChildren := src.numChildren, partialLen := r.partialLen, partial := r.partial)
    ensures |r.partial| == MAX_PREFIX_LEN && r.partialLen == src.partialLen
    ensures r.partial[..Min(r.partialLen, MAX_PREFIX_LEN)] == Stored(src)
  {
    var m := Min(MAX_PREFIX_LEN, src.partialLen);
    dest.(numChildren := src.numChildren, partialLen := src.partialLen, partial := src.partial[..m] + dest.partial[m..])
  }

  /** Copying the entries of a Node4 into a fresh Node16. */
  method Grow4(n: Node) returns (r: Node)
    requires LayoutOk(n) && n.kind.Kind4?
    ensures LayoutOk(r) && r.kind.Kind16? && SameHeader(r, n) && Kids(r) == Kids(n) && SameList(n, r)
  {
    hide Kids;
    var m := AllocNode(Kind16);
    m := m.(children := n.children[..n.numChildren] + m.children[n.numChildren..],
            keys := n.keys[..n.numChildren] + m.keys[n.numChildren..]);
    r := CopyHeader(m, n);
    SameListSameKids(n, r);
  }

  lemma SameListSameKids(n: Node, r: Node)
    requires LayoutOk(n) && IsList(n) && IsList(r) && r.numChildren == n.numChildren
    requires forall i :: 0 <= i < n.numChildren ==> r.keys[i] == n.keys[i] && r.children[i] == n.children[i]
    ensures LayoutOk(r) && Kids(r) == Kids(n)
  {
    hide Kids, IndexOf;
    assert ListOk(r);
    forall i | 0 <= i < r.numChildren
      ensures r.keys[i] in Kids(n) && Kids(n)[r.keys[i]] == r.children[i]
    {
      ListKid(n, i);
    }
    forall b | b in Kids(n)
      ensures exists i :: 0 <= i < r.numChildren && r.keys[i] == b
    {
      var i := KidIndex(n, b);
      assert r.keys[i] == b;
    }
    ListMeans(r, Kids(n));
  }

  method AddChild16(n: Node, c: Byte, child: Ptr) returns (r: Node)
    requires LayoutOk(n) && n.kind.Kind16? && c !in Kids(n) && child != NULL
    ensures Added(n, r, c, child)
    ensures r.kind == if |Kids(n)| < 16 then Kind16 else Kind48
    ensures |Kids(n)| < 16 ==> ListAdded(n, r, c, child, true)
  {
    hide Kids;
    assert n.numChildren == |Kids(n)|;
    if n.numChildren < 16 {
      var idx := FindPlace(n, c, true);
      r := InsertAt(n, idx, c, child);
    } else {
      var m := Grow16(n);
      r := AddChild48(m, c, child);
    }
  }

  /** Turning the key list of a Node16 into the key index of a Node48. */
  method IndexKeys(list: seq<Byte>, n: nat) returns (index: seq<Byte>)
    requires n <= |list| == 16 && Distinct(list, n)
    ensures |index| == 256
    ensures forall b: Byte :: index[b] <= n
    ensures forall b: Byte :: index[b] != 0 ==> list[index[b] - 1] == b
    ensures forall j :: 0 <= j < n ==> index[list[j]] == j + 1
  {
    index := Zeros(256);
    var i := 0;
    while i < n
      invariant 0 <= i <= n && |index| == 256
      invariant forall b: Byte :: index[b] <= i
      invariant forall b: Byte :: index[b] != 0 ==> list[index[b] - 1] == b
      invariant forall j :: 0 <= j < i ==> index[list[j]] == j + 1
    {
      index := index[list[i] := i + 1];
      i := i + 1;
    }
  }

  method Grow16(n: Node) returns (r: Node)
    requires LayoutOk(n) && n.kind.Kind16?
    ensures LayoutOk(r) && r.kind.Kind48? && SameHeader(r, n) && Kids(r) == Kids(n)
  {
    hide *;
    IsListOfKind(n);
    ListFacts(n);
    SizedList(n);
    var m := AllocNode(Kind48);
    FreshNode(Kind48);
    var keys := IndexKeys(n.keys, n.numChildren);
    m := m.(children := n.children[..n.numChildren] + m.children[n.numChildren..], keys := keys);
    IndexedSized(m);
    r := CopyHeader(m, n);
    IndexedNode(n, keys, m, r);
    IndexFromList(n, r);
  }

  lemma SizedList(n: Node)
    requires Sized(n) && n.kind.Kind16?
    ensures |n.keys| == 16 == |n.children|
  {
  }

  lemma FreshNode(kind: Kind)
    ensures var m := AllocNode(kind); Sized(m) && m.kind == kind && |m.partial| == MAX_PREFIX_LEN
    ensures kind.Kind48? ==> |AllocNode(kind).children| == 48 && forall i ::
      0 <= i < 48 ==> AllocNode(kind).children[i] == NULL
  {
  }

  lemma IndexedSized(m: Node)
    requires m.kind.Kind48? && |m.partial| == MAX_PREFIX_LEN && |m.children| == 48 && |m.keys| == 256
    requires forall b: Byte :: m.keys[b] <= 48
    ensures Sized(m)
  {
  }

  lemma IndexedNode(n: Node, keys: seq<Byte>, m: Node, r: Node)
    requires IsList(n) && Sized(n) && n.kind.Kind16? && n.numChildren <= 16 == |n.children| == |n.keys|
    requires Sized(m) && m.kind.Kind48? && m.keys == keys && |m.children| == 48 && |keys| == 256
    requires forall i :: 0 <= i < n.numChildren ==> m.children[i] == n.children[i]
    requires forall i :: n.numChildren <= i < 48 ==> m.children[i] == NULL
    requires forall b: Byte :: keys[b] <= n.numChildren
    requires forall b: Byte :: keys[b] != 0 ==> n.keys[keys[b] - 1] == b
    requires forall j :: 0 <= j < n.numChildren ==> keys[n.keys[j]] == j + 1
    requires r == CopyHeader(m, n)
    ensures Sized(r) && r.kind.Kind48? && Indexes(r, n) && r.numChildren == n.numChildren && SameHeader(r, n)
  {
    hide CopyHeader;
  }

  lemma Kid48(n: Node, b: Byte)
    requires Sized(n) && n.kind.Kind48?
    ensures b in Kids(n) <==> n.keys[b] != 0 && n.children[n.keys[b] - 1] != NULL
    ensures b in Kids(n) ==> Kids(n)[b] == n.children[n.keys[b] - 1]
  {
  }

  lemma Kid256(n: Node, b: Byte)
    requires Sized(n) && n.kind.Kind256?
    ensures b in Kids(n) <==> n.children[b] != NULL
    ensures b in Kids(n) ==> Kids(n)[b] == n.children[b]
  {
  }

  /** The key index r lists exactly the entries of the key list n. */
  ghost predicate Indexes(r: Node, n: Node) {
    && IsList(n) && Sized(r) && r.kind.Kind48?
    && (forall b: Byte :: r.keys[b] <= n.numChildren)
    && (forall b: Byte :: r.keys[b] != 0 ==> n.keys[r.keys[b] - 1] == b)
    && (forall j :: 0 <= j < n.numChildren ==> r.keys[n.keys[j]] == j + 1)
    && (forall j :: 0 <= j < n.numChildren ==> r.children[j] == n.children[j])
    && (forall j :: n.numChildren <= j < 48 ==> r.children[j] == NULL)
  }

  lemma IndexFromList(n: Node, r: Node)
    requires LayoutOk(n) && n.kind.Kind16? && Indexes(r, n) && r.numChildren == n.numChildren
    requires Sized(r) && r.kind.Kind48?
    ensures LayoutOk(r) && Kids(r) == Kids(n)
  {
    hide Kids, Indexes, IndexOf;
    assert Sized(n) && ListOk(n);
    IndexesOk(n, r);
    forall b: Byte
      ensures b in Kids(r) <==> b in Kids(n)
      ensures b in Kids(n) ==> Kids(r)[b] == Kids(n)[b]
    {
      IndexesKid(n, r, b);
    }
    assert Kids(r) == Kids(n);
  }

  lemma IndexesOk(n: Node, r: Node)
    requires Indexes(r, n) && ListOk(n)
    ensures IndexOk(r)
  {
    hide Kids, IndexOf;
    forall i | 0 <= i < 48 && r.children[i] != NULL
      ensures exists b: Byte :: r.keys[b] == i + 1
    {
      assert r.keys[n.keys[i]] == i + 1;
    }
  }

  lemma IndexesKid(n: Node, r: Node, b: Byte)
    requires Indexes(r, n) && ListOk(n)
    ensures b in Kids(r) <==> b in Kids(n)
    ensures b in Kids(n) ==> Kids(r)[b] == Kids(n)[b]
  {
    hide IndexOf, Kids;
    Kid48(r, b);
    if r.keys[b] != 0 {
      ListKid(n, r.keys[b] - 1);
    } else if b in Kids(n) {
      var i := KidIndex(n, b);
    }
  }

  method AddChild48(n: Node, c: Byte, child: Ptr) returns (r: Node)
    requires LayoutOk(n) && n.kind.Kind48? && c !in Kids(n) && child != NULL
    ensures Added(n, r, c, child)
    ensures r.kind == if |Kids(n)| < 48 then Kind48 else Kind256
  {
    hide Kids;
    if n.numChildren < 48 {
      FreeSlot(n);
      var pos := 0;
      while n.children[pos] != NULL
        invariant 0 <= pos < 48
        invariant exists i :: pos <= i < 48 && n.children[i] == NULL
        decreases 48 - pos
      {
        pos := pos + 1;
      }
      r := n.(children := n.children[pos := child], keys := n.keys[c := pos + 1], numChildren := n.numChildren + 1);
      Inserted48(n, r, pos, c, child);
    } else {
      AtMost48(n);
      var m := Grow48(n);
      r := AddChild256(m, c, child);
    }
  }

  /** Fewer than 48 children leave a free child slot, so the scan for one stops. */
  lemma FreeSlot(n: Node)
    requires LayoutOk(n) && n.kind.Kind48? && n.numChildren < 48
    ensures exists i :: 0 <= i < 48 && n.children[i] == NULL
  {
    hide Kids;
    if forall i :: 0 <= i < 48 ==> n.children[i] != NULL {
      var s := UsedSlots(n, 48);
    }
  }

  lemma {:induction false} UsedSlots(n: Node, t: nat) returns (s: set<Byte>)
    requires Sized(n) && n.kind.Kind48? && IndexOk(n) && t <= 48 == |n.children| && |n.keys| == 256
    requires forall i :: 0 <= i < t ==> n.children[i] != NULL
    ensures |s| == t && s <= Kids(n).Keys && t <= |Kids(n)|
    ensures forall b: Byte :: b in s ==> n.keys[b] <= t
  {
    hide *;
    if t == 0 {
      s := {};
    } else {
      s := UsedSlots(n, t - 1);
      var b := KeyOfSlotIn(n, t - 1);
      Kid48(n, b);
      s := s + {b};
    }
    SubsetSize(s, Kids(n).Keys);
  }

  lemma Inserted48(n: Node, r: Node, pos: nat, c: Byte, child: Ptr)
    requires LayoutOk(n) && n.kind.Kind48? && c !in Kids(n) && child != NULL && n.numChildren < 48
    requires pos < 48 && n.children[pos] == NULL
    requires r == n.(children := n.children[pos := child], keys := n.keys[c := pos + 1],
      numChildren := n.numChildren + 1)
    ensures LayoutOk(r) && Kids(r) == Kids(n)[c := child]
  {
    hide Kids, IndexOk;
    Unused48(n, c);
    var m := Kids(n)[c := child];
    Index48(n, r, pos, c, child);
    forall b: Byte
      ensures b in Kids(r) <==> b in m
      ensures b in m ==> Kids(r)[b] == m[b]
    {
      Kid48Inserted(n, r, pos, c, child, b);
    }
    assert Kids(r) == m;
    Layout48(r);
  }

  lemma Unused48(n: Node, c: Byte)
    requires Sized(n) && n.kind.Kind48? && IndexOk(n) && c !in Kids(n)
    ensures n.keys[c] == 0
  {
    hide Kids;
    Kid48(n, c);
  }

  lemma Kid48Inserted(n: Node, r: Node, pos: nat, c: Byte, child: Ptr, b: Byte)
    requires Sized(n) && n.kind.Kind48? && IndexOk(n) && child != NULL && pos < 48
    requires n.children[pos] == NULL && n.keys[c] == 0
    requires r == n.(children := n.children[pos := child], keys := n.keys[c := pos + 1],
      numChildren := n.numChildren + 1)
    requires Sized(r)
    ensures b in Kids(r) <==> b in Kids(n) || b == c
    ensures b == c ==> b in Kids(r) && Kids(r)[b] == child
    ensures b in Kids(n) && b != c ==> Kids(r)[b] == Kids(n)[b]
  {
    hide Kids;
    Kid48(n, b);
    Kid48(r, b);
  }

  lemma Index48(n: Node, r: Node, pos: nat, c: Byte, child: Ptr)
    requires Sized(n) && n.kind.Kind48? && IndexOk(n) && child != NULL && pos < 48
    requires n.children[pos] == NULL && n.keys[c] == 0
    requires r == n.(children := n.children[pos := child], keys := n.keys[c := pos + 1],
      numChildren := n.numChildren + 1)
    ensures Sized(r) && IndexOk(r)
  {
    assert Sized(r);
    FreeNumber(n, pos);
    forall b: Byte, d: Byte | r.keys[b] == r.keys[d] != 0
      ensures b == d
    {
      Index48Once(n, pos, c, b, d);
    }
    forall i | 0 <= i < 48 && r.children[i] != NULL
      ensures exists b: Byte :: r.keys[b] == i + 1
    {
      var b := Index48Slot(n, pos, c, i);
      assert r.keys[b] == i + 1;
    }
    forall b: Byte | r.keys[b] != 0
      ensures r.children[r.keys[b] - 1] != NULL
    {
      Index48Used(n, pos, c, b);
    }
  }

  lemma Index48Once(n: Node, pos: nat, c: Byte, b: Byte, d: Byte)
    requires Sized(n) && n.kind.Kind48? && IndexOk(n) && pos < 48
    requires forall x: Byte :: n.keys[x] != pos + 1
    requires n.keys[c := pos + 1][b] == n.keys[c := pos + 1][d] != 0
    ensures b == d
  {
  }

  lemma Index48Slot(n: Node, pos: nat, c: Byte, i: nat) returns (b: Byte)
    requires Sized(n) && n.kind.Kind48? && IndexOk(n) && pos < 48 && i < 48 && n.keys[c] == 0
    requires i == pos || n.children[i] != NULL
    ensures n.keys[c := pos + 1][b] == i + 1
  {
    hide IndexOk;
    if i == pos {
      b := c;
    } else {
      b := KeyOfSlotIn(n, i);
    }
  }

  lemma Index48Used(n: Node, pos: nat, c: Byte, b: Byte)
    requires Sized(n) && n.kind.Kind48? && IndexOk(n) && pos < 48
    requires n.keys[c := pos + 1][b] != 0
    ensures b == c || (n.keys[b] != 0 && n.children[n.keys[b] - 1] != NULL)
  {
  }

  lemma FreeNumber(n: Node, pos: nat)
    requires Sized(n) && n.kind.Kind48? && IndexOk(n) && pos < 48 && n.children[pos] == NULL
    ensures forall b: Byte :: n.keys[b] != pos + 1
  {
  }

  /** Moving the children of a Node48 to the places their key bytes have in a Node256. */
  method ScatterChildren(keys: seq<Byte>, from: seq<Ptr>) returns (children: seq<Ptr>)
    requires |keys| == 256 && |from| == 48 && forall b: Byte :: keys[b] <= 48
    ensures |children| == 256
    ensures forall b: Byte :: keys[b] == 0 ==> children[b] == NULL
    ensures forall b: Byte :: keys[b] != 0 ==> children[b] == from[keys[b] - 1]
  {
    children := Nulls(256);
    var i := 0;
    while i < 256
      invariant 0 <= i <= 256 && |children| == 256
      invariant forall b: Byte :: i <= b || keys[b] == 0 ==> children[b] == NULL
      invariant forall b: Byte :: b < i && keys[b] != 0 ==> children[b] == from[keys[b] - 1]
    {
      if keys[i] != 0 {
        children := children[i := from[keys[i] - 1]];
      }
      i := i + 1;
    }
  }

  lemma ScatteredKids(n: Node, r: Node)
    requires Sized(n) && n.kind.Kind48? && IndexOk(n) && Sized(r) && r.kind.Kind256?
    requires forall b: Byte :: n.keys[b] == 0 ==> r.children[b] == NULL
    requires forall b: Byte :: n.keys[b] != 0 ==> r.children[b] == n.children[n.keys[b] - 1]
    ensures Kids(r) == Kids(n)
  {
    hide Kids, IndexOk;
    forall b: Byte
      ensures b in Kids(r) <==> b in Kids(n)
      ensures b in Kids(n) ==> Kids(r)[b] == Kids(n)[b]
    {
      Kid48(n, b);
      Kid256(r, b);
    }
    assert Kids(r) == Kids(n);
  }

  method Grow48(n: Node) returns (r: Node)
    requires LayoutOk(n) && n.kind.Kind48? && n.numChildren == 48
    ensures LayoutOk(r) && r.kind.Kind256? && SameHeader(r, n) && Kids(r) == Kids(n)
  {
    hide Kids;
    var m := AllocNode(Kind256);
    var children := ScatterChildren(n.keys, n.children);
    r := CopyHeader(m.(children := children), n);
    ScatteredKids(n, r);
  }

  lemma AtMost48(n: Node)
    requires LayoutOk(n) && n.kind.Kind48?
    ensures n.numChildren <= 48
  {
    hide Kids;
    forall b: Byte | b in Kids(n).Keys
      ensures n.keys[b] - 1 in Upto(48)
    {
      Kid48(n, b);
    }
    InjectionSize(n, Kids(n).Keys, Upto(48));
  }

  function Upto(k: nat): (s: set<int>)
    ensures |s| == k && forall i :: i in s <==> 0 <= i < k
  {
    if k == 0 then {} else Upto(k - 1) + {k - 1}
  }

  /** Distinct children occupy distinct slots. */
  lemma {:induction false} InjectionSize(n: Node, bs: set<Byte>, slots: set<int>)
    requires Sized(n) && n.kind.Kind48? && IndexOk(n) && bs <= Kids(n).Keys
    requires forall b: Byte :: b in bs ==> n.keys[b] - 1 in slots
    ensures |bs| <= |slots|
    decreases bs
  {
    hide Kids, IndexOk;
    if bs != {} {
      var b :| b in bs;
      forall c: Byte | c in bs - {b}
        ensures n.keys[c] - 1 in slots - {n.keys[b] - 1}
      {
        DistinctSlots(n, b, c);
      }
      InjectionSize(n, bs - {b}, slots - {n.keys[b] - 1});
    }
  }

  lemma DistinctSlots(n: Node, b: Byte, c: Byte)
    requires Sized(n) && n.kind.Kind48? && IndexOk(n) && b in Kids(n) && c in Kids(n) && b != c
    ensures n.keys[b] != n.keys[c]
  {
    hide Kids;
    Kid48(n, b);
  }

  method AddChild256(n: Node, c: Byte, child: Ptr) returns (r: Node)
    requires LayoutOk(n) && n.kind.Kind256? && c !in Kids(n) && child != NULL
    ensures Added(n, r, c, child) && r.kind.Kind256?
  {
    hide Kids;
    r := n.(numChildren := (n.numChildren + 1) % 256, children := n.children[c := child]);
    Kids256Update(n, r, c, child);
    assert |Kids(r)| == |Kids(n)| + 1;
  }

  lemma Kids256Update(n: Node, r: Node, c: Byte, child: Ptr)
    requires Sized(n) && Sized(r) && n.kind.Kind256? && r.kind.Kind256?
    requires r.children == n.children[c := child]
    ensures Kids(r) == if child == NULL then Kids(n) - {c} else Kids(n)[c := child]
  {
    hide Kids;
    var m := if child == NULL then Kids(n) - {c} else Kids(n)[c := child];
    forall b: Byte
      ensures b in Kids(r) <==> b in m
      ensures b in m ==> Kids(r)[b] == m[b]
    {
      Kid256(n, b);
      Kid256(r, b);
    }
    assert Kids(r) == m;
  }

  method AddChild(n: Node, c: Byte, child: Ptr) returns (r: Node)
    requires LayoutOk(n) && c !in Kids(n) && child != NULL
    ensures Added(n, r, c, child)
    ensures r.kind == GrowsTo(n.kind, |Kids(n)|)
    ensures IsList(n) && IsList(r) ==> ListAdded(n, r, c, child, n.kind.Kind16? || |Kids(n)| == 4)
  {
    hide Kids, LayoutOk, ListAdded, Added;
    KindOfList(n);
    match n.kind {
      case Kind4 => r := AddChild4(n, c, child);
      case Kind16 => r := AddChild16(n, c, child);
      case Kind48 => r := AddChild48(n, c, child);
      case Kind256 => r := AddChild256(n, c, child);
    }
    KindOfList(r);
  }

  lemma KindOfList(n: Node)
    ensures IsList(n) ==> n.kind.Kind4? || n.kind.Kind16?
    ensures LayoutOk(n) && n.kind.Kind4? ==> IsList(n) && |Kids(n)| <= 4
    ensures LayoutOk(n) && n.kind.Kind16? ==> IsList(n) && |Kids(n)| <= 16
  {
    hide Kids;
  }

  /** The layout after adding a child to a node with `count` children. */
  function GrowsTo(kind: Kind, count: nat): Kind {
    match kind
    case Kind4 => if count < 4 then Kind4 else Kind16
    case Kind16 => if count < 16 then Kind16 else Kind48
    case Kind48 => if count < 48 then Kind48 else Kind256
    case Kind256 => Kind256
  }

  // ----- remove_child -----

  ghost predicate Removed(n: Node, r: Node, c: Byte) {
    LayoutOk(n) && LayoutOk(r) && SameHeader(r, n) && Kids(r) == Kids(n) - {c}
  }

  /** The layout after removing one of `count` children. */
  function ShrinksTo(kind: Kind, count: nat): Kind {
    match kind
    case Kind4 => Kind4
    case Kind16 => if count == 4 then Kind4 else Kind16
    case Kind48 => if count == 13 then Kind16 else Kind48
    case Kind256 => if count == 38 then Kind48 else Kind256
  }

  function Deletion(n: Node, pos: nat): (r: Node)
    requires IsList(n) && pos < n.numChildren
    ensures IsList(r) && r.kind == n.kind && r.numChildren == n.numChildren - 1
    ensures r.partial == n.partial && r.partialLen == n.partialLen
    ensures forall i :: 0 <= i < pos ==> r.keys[i] == n.keys[i] && r.children[i] == n.children[i]
    ensures forall i :: pos <= i < r.numChildren ==> r.keys[i] == n.keys[i + 1] && r.children[i] == n.children[i + 1]
  {
    var keys := MemMove(n.keys, pos, pos + 1, n.numChildren - 1 - pos);
    var children := MemMove(n.children, pos, pos + 1, n.numChildren - 1 - pos);
    n.(keys := keys, children := children, numChildren := n.numChildren - 1)
  }

  lemma DeletionMeans(n: Node, pos: nat)
    requires LayoutOk(n) && IsList(n) && pos < n.numChildren
    ensures Removed(n, Deletion(n, pos), n.keys[pos])
  {
    hide *;
    ListFacts(n);
    var r := Deletion(n, pos);
    var c := n.keys[pos];
    ListKid(n, pos);
    DeletionList(n, pos);
    var m := Kids(n) - {c};
    forall i | 0 <= i < r.numChildren
      ensures r.keys[i] in m && m[r.keys[i]] == r.children[i]
    {
      ListKid(n, if i < pos then i else i + 1);
    }
    forall b | b in m
      ensures exists i :: 0 <= i < r.numChildren && r.keys[i] == b
    {
      var i := KidIndex(n, b);
      assert r.keys[if i < pos then i else i - 1] == b;
    }
    ListMeans(r, m);
    assert |m| == |Kids(n)| - 1;
    ListLayout(r);
    IsRemoved(n, r, c);
  }

  lemma IsRemoved(n: Node, r: Node, c: Byte)
    requires LayoutOk(n) && LayoutOk(r) && Kids(r) == Kids(n) - {c}
    requires r.partial == n.partial && r.partialLen == n.partialLen
    ensures Removed(n, r, c)
  {
    hide Kids;
  }

  lemma ListFacts(n: Node)
    requires LayoutOk(n) && IsList(n)
    ensures Sized(n) && ListOk(n) && (n.kind.Kind4? || n.kind.Kind16?)
    ensures n.numChildren == |Kids(n)| && n.numChildren <= |n.keys| && n.numChildren <= |n.children|
    ensures Distinct(n.keys, n.numChildren)
    ensures forall i, j :: 0 <= i < j < n.numChildren ==> n.keys[i] != n.keys[j]
  {
    hide Kids;
  }

  lemma IsListOfKind(n: Node)
    requires LayoutOk(n) && (n.kind.Kind4? || n.kind.Kind16?)
    ensures IsList(n)
  {
    hide Kids;
  }

  lemma DeletionList(n: Node, pos: nat)
    requires IsList(n) && ListOk(n) && pos < n.numChildren
    ensures var r := Deletion(n, pos);
      Sized(r) && ListOk(r) && (r.kind.Kind4? || r.kind.Kind16?) && r.numChildren <= |r.keys|
          && r.numChildren <= |r.children|
  {
    hide Deletion;
  }

  method RemoveChild4(n: Node, pos: nat) returns (r: Node)
    requires LayoutOk(n) && n.kind.Kind4? && pos < n.numChildren <= |n.keys|
    ensures Removed(n, r, n.keys[pos]) && r.kind.Kind4? && ListDropped(n, r, pos)
  {
    hide Kids;
    r := Deletion(n, pos);
    DeletionMeans(n, pos);
  }

  method RemoveChild16(n: Node, pos: nat) returns (r: Node)
    requires LayoutOk(n) && n.kind.Kind16? && pos < n.numChildren <= |n.keys|
    ensures Removed(n, r, n.keys[pos]) && r.kind == (if |Kids(n)| == 4 then Kind4 else Kind16)
    ensures ListDropped(n, r, pos)
  {
    hide Kids, LayoutOk;
    IsListOfKind(n);
    ListFacts(n);
    r := Deletion(n, pos);
    DeletionMeans(n, pos);
    if r.numChildren == 3 {
      var m := AllocNode(Kind4);
      m := CopyHeader(m, r).(keys := r.keys[..4], children := r.children[..4]);
      SameListSameKids(r, m);
      DroppedToCopy(n, r, m, pos);
      r := m;
    }
  }

  /** The first `count` list entries are the key bytes in `seen`, each with its child. */
  ghost predicate Lists(keys: seq<Byte>, children: seq<Ptr>, count: nat, index: seq<Byte>, from: seq<Ptr>,
                        seen: set<Byte>) {
    && |keys| == |children| == 16 && count <= 16 && |index| == 256 && |from| == 48
    && Distinct(keys, count)
    && (forall i :: 0 <= i < count ==>
       keys[i] in seen && 0 < index[keys[i]] <= 48 && children[i] == from[index[keys[i]] - 1])
    && (forall b :: b in seen ==> exists i :: 0 <= i < count && keys[i] == b)
  }

  /** The occupied key bytes of a Node48 in ascending order, with their children. */
  method CollectList(index: seq<Byte>, from: seq<Ptr>, ghost used: set<Byte>)
    returns (keys: seq<Byte>, children: seq<Ptr>, count: nat)
    requires |index| == 256 && |from| == 48 && forall b: Byte :: index[b] <= 48
    requires |used| <= 16 && forall b: Byte :: index[b] != 0 <==> b in used
    ensures Lists(keys, children, count, index, from, used) && count == |used|
    ensures |keys| == |children| == 16 && count <= 16
    ensures forall j, k :: 0 <= j < k < count ==> keys[j] < keys[k]
  {
    hide Lists;
    keys, children, count := Zeros(16), Nulls(16), 0;
    ghost var seen: set<Byte> := {};
    var i := 0;
    CollectNone(keys, children, index, from);
    while i < 256
      invariant 0 <= i <= 256 && |keys| == |children| == 16
      invariant seen <= used && |seen| == count <= 16
      invariant forall b: Byte :: b in seen <==> b in used && b < i
      invariant Lists(keys, children, count, index, from, seen)
      invariant forall j :: 0 <= j < count ==> keys[j] < i
      invariant forall j, k :: 0 <= j < k < count ==> keys[j] < keys[k]
    {
      var pos := index[i];
      if pos != 0 {
        SubsetSize(seen + {i}, used);
        CollectStep(keys, children, count, index, from, seen, i);
        keys := keys[count := i];
        children := children[count := from[pos - 1]];
        count := count + 1;
        seen := seen + {i};
      }
      i := i + 1;
    }
    assert seen == used;
  }

  lemma CollectNone(keys: seq<Byte>, children: seq<Ptr>, index: seq<Byte>, from: seq<Ptr>)
    requires |keys| == |children| == 16 && |index| == 256 && |from| == 48
    ensures Lists(keys, children, 0, index, from, {})
  {
  }

  lemma CollectStep(keys: seq<Byte>, children: seq<Ptr>, count: nat, index: seq<Byte>, from: seq<Ptr>, seen: set<Byte>,
                    c: Byte)
    requires Lists(keys, children, count, index, from, seen) && c !in seen && count < 16
    requires |keys| == |children| == 16 && |index| == 256 && |from| == 48 && 0 < index[c] <= 48
    ensures Lists(keys[count := c], children[count := from[index[c] - 1]], count + 1, index, from, seen + {c})
  {
    var keys' := keys[count := c];
    forall b | b in seen + {c}
      ensures exists j :: 0 <= j < count + 1 && keys'[j] == b
    {
      if b == c {
        assert keys'[count] == b;
      } else {
        var j :| 0 <= j < count && keys[j] == b;
        assert keys'[j] == b;
      }
    }
  }

  method Shrink48(n: Node) returns (r: Node)
    requires LayoutOk(n) && n.kind.Kind48? && n.numChildren == 12
    ensures LayoutOk(r) && r.kind.Kind16? && SameHeader(r, n) && Kids(r) == Kids(n) && Ascends(r)
  {
    hide Kids, Lists;
    var m := AllocNode(Kind16);
    UsedKeys48(n);
    var keys, children, count := CollectList(n.keys, n.children, Kids(n).Keys);
    r := CopyHeader(m, n).(keys := keys, children := children);
    ListedKids(n, r);
  }

  lemma UsedKeys48(n: Node)
    requires Sized(n) && n.kind.Kind48? && IndexOk(n)
    ensures forall b: Byte :: n.keys[b] != 0 <==> b in Kids(n).Keys
  {
    hide Kids;
    forall b: Byte
      ensures n.keys[b] != 0 <==> b in Kids(n).Keys
    {
      Kid48(n, b);
    }
  }

  lemma ListedKids(n: Node, r: Node)
    requires LayoutOk(n) && Sized(n) && n.kind.Kind48? && IndexOk(n) && n.numChildren == |Kids(n)|
    requires Sized(r) && r.kind.Kind16? && r.numChildren == n.numChildren
    requires Lists(r.keys, r.children, r.numChildren, n.keys, n.children, Kids(n).Keys)
    ensures LayoutOk(r) && Kids(r) == Kids(n)
  {
    hide Kids, LayoutOk, IndexOk;
    forall i | 0 <= i < r.numChildren
      ensures r.keys[i] in Kids(n) && Kids(n)[r.keys[i]] == r.children[i] != NULL
    {
      Kid48(n, r.keys[i]);
    }
    assert ListOk(r);
    ListMeans(r, Kids(n));
    ListLayout(r);
  }

  method RemoveChild48(n: Node, c: Byte) returns (r: Node)
    requires LayoutOk(n) && n.kind.Kind48? && c in Kids(n)
    ensures Removed(n, r, c) && r.kind == (if |Kids(n)| == 13 then Kind16 else Kind48) && Ascends(r)
  {
    hide Kids;
    Kid48(n, c);
    var pos := n.keys[c];
    r := n.(keys := n.keys[c := 0], children := n.children[pos - 1 := NULL], numChildren := n.numChildren - 1);
    Removed48(n, r, c);
    if r.numChildren == 12 {
      r := Shrink48(r);
    }
  }

  lemma Removed48(n: Node, r: Node, c: Byte)
    requires LayoutOk(n) && Sized(n) && n.kind.Kind48? && IndexOk(n) && c in Kids(n)
    requires n.keys[c] != 0 && n.numChildren > 0 && n.numChildren == |Kids(n)|
    requires r == n.(keys := n.keys[c := 0], children := n.children[n.keys[c] - 1 := NULL],
      numChildren := n.numChildren - 1)
    ensures Removed(n, r, c)
  {
    hide Kids, LayoutOk, IndexOk, Sized;
    Index48Removed(n, r, c);
    Kids48Removed(n, r, c);
    OneLess(Kids(n), c);
    Layout48(r);
    IsRemoved(n, r, c);
  }

  lemma Kids48Removed(n: Node, r: Node, c: Byte)
    requires Sized(n) && n.kind.Kind48? && IndexOk(n) && n.keys[c] != 0 && n.numChildren > 0
    requires r == n.(keys := n.keys[c := 0], children := n.children[n.keys[c] - 1 := NULL],
      numChildren := n.numChildren - 1)
    requires Sized(r)
    ensures Kids(r) == Kids(n) - {c}
  {
    hide *;
    forall b: Byte
      ensures b in Kids(r) <==> b in Kids(n) && b != c
      ensures b in Kids(n) && b != c ==> Kids(r)[b] == Kids(n)[b]
    {
      Kid48Removed(n, r, c, b);
    }
    Without1(Kids(n), Kids(r), c);
  }

  lemma Without1<T>(m: map<Byte, T>, m': map<Byte, T>, c: Byte)
    requires forall b: Byte :: b in m' <==> b in m && b != c
    requires forall b: Byte :: b in m && b != c ==> m'[b] == m[b]
    ensures m' == m - {c}
  {
  }

  lemma OneLess<T>(m: map<Byte, T>, c: Byte)
    requires c in m
    ensures |m - {c}| == |m| - 1
  {
    assert (m - {c}).Keys == m.Keys - {c};
    assert |m.Keys - {c}| == |m.Keys| - 1;
  }

  lemma Layout48(r: Node)
    requires Sized(r) && r.kind.Kind48? && IndexOk(r) && r.numChildren == |Kids(r)|
    ensures LayoutOk(r)
  {
    hide Kids;
  }

  lemma Kid48Removed(n: Node, r: Node, c: Byte, b: Byte)
    requires Sized(n) && n.kind.Kind48? && IndexOk(n) && n.keys[c] != 0 && n.numChildren > 0
    requires r == n.(keys := n.keys[c := 0], children := n.children[n.keys[c] - 1 := NULL],
      numChildren := n.numChildren - 1)
    requires Sized(r)
    ensures b in Kids(r) <==> b in Kids(n) && b != c
    ensures b in Kids(n) && b != c ==> Kids(r)[b] == Kids(n)[b]
  {
    hide Kids;
    Kid48(n, b);
    Kid48(r, b);
  }

  lemma Index48Removed(n: Node, r: Node, c: Byte)
    requires Sized(n) && n.kind.Kind48? && IndexOk(n) && n.keys[c] != 0 && n.numChildren > 0
    requires r == n.(keys := n.keys[c := 0], children := n.children[n.keys[c] - 1 := NULL],
      numChildren := n.numChildren - 1)
    ensures Sized(r) && IndexOk(r)
  {
    assert Sized(r);
    forall i | 0 <= i < 48 && r.children[i] != NULL
      ensures exists b: Byte :: r.keys[b] == i + 1
    {
      var b := KeyOfSlotIn(n, i);
      assert r.keys[b] == i + 1;
    }
    forall b: Byte | r.keys[b] != 0
      ensures r.children[r.keys[b] - 1] != NULL
    {
      assert n.keys[b] != n.keys[c];
    }
  }

  lemma KeyOfSlotIn(n: Node, i: nat) returns (b: Byte)
    requires Sized(n) && n.kind.Kind48? && IndexOk(n) && i < 48 && n.children[i] != NULL
    ensures n.keys[b] == i + 1
  {
    b :| n.keys[b] == i + 1;
  }

  /** Numbering the children of a Node256 in ascending key order. */
  method NumberChildren(from: seq<Ptr>, ghost used: set<Byte>) returns (keys: seq<Byte>, children: seq<Ptr>)
    requires |from| == 256 && |used| <= 48 && forall b: Byte :: from[b] != NULL <==> b in used
    ensures Numbers(keys, children, from, used, |used|)
  {
    hide Numbers;
    keys, children := Zeros(256), Nulls(48);
    var i, pos := 0, 0;
    ghost var seen: set<Byte> := {};
    NumbersNone(keys, children, from);
    while i < 256
      invariant 0 <= i <= 256 && |keys| == 256 && |children| == 48
      invariant seen <= used && |seen| == pos <= 48
      invariant forall b: Byte :: b in seen <==> b in used && b < i
      invariant Numbers(keys, children, from, seen, pos)
    {
      if from[i] != NULL {
        SubsetSize(seen + {i}, used);
        NumbersStep(keys, children, from, seen, pos, i);
        children := children[pos := from[i]];
        keys := keys[i := pos + 1];
        pos := pos + 1;
        seen := seen + {i};
      }
      i := i + 1;
    }
    assert seen == used;
  }

  /** The key bytes in `seen` are numbered 1..pos, ... */
  ghost predicate NumbersKeys(keys: seq<Byte>, seen: set<Byte>, pos: nat) {
    && |keys| == 256
    && (forall b: Byte :: keys[b] <= pos)
    && (forall b: Byte :: keys[b] != 0 <==> b in seen)
    && (forall b: Byte, c: Byte :: keys[b] == keys[c] != 0 ==> b == c)
  }

  /** ... each number pointing at its child. */
  ghost predicate Numbers(keys: seq<Byte>, children: seq<Ptr>, from: seq<Ptr>, seen: set<Byte>, pos: nat) {
    && NumbersKeys(keys, seen, pos) && |children| == 48 && |from| == 256 && pos <= 48
    && (forall b: Byte :: keys[b] != 0 ==> children[keys[b] - 1] == from[b] != NULL)
    && (forall i :: 0 <= i < 48 && children[i] != NULL ==> i < pos && exists b: Byte :: keys[b] == i + 1)
  }

  lemma NumbersNone(keys: seq<Byte>, children: seq<Ptr>, from: seq<Ptr>)
    requires keys == Zeros(256) && children == Nulls(48) && |from| == 256
    ensures Numbers(keys, children, from, {}, 0)
  {
  }

  lemma NumbersStep(keys: seq<Byte>, children: seq<Ptr>, from: seq<Ptr>, seen: set<Byte>, pos: nat, c: Byte)
    requires Numbers(keys, children, from, seen, pos) && pos < 48 && c !in seen
    requires |keys| == |from| == 256 && |children| == 48 && from[c] != NULL
    ensures Numbers(keys[c := pos + 1], children[pos := from[c]], from, seen + {c}, pos + 1)
  {
    var keys', children' := keys[c := pos + 1], children[pos := from[c]];
    assert NumbersKeys(keys', seen + {c}, pos + 1);
    hide NumbersKeys;
    forall i: int | 0 <= i < 48 && children'[i] != NULL
      ensures i < pos + 1 && exists b: Byte :: keys'[b] == i + 1
    {
      var b := NumbersStepSlot(keys, children, from, seen, pos, c, i);
      assert keys'[b] == i + 1;
    }
    forall b: Byte | keys'[b] != 0
      ensures children'[keys'[b] - 1] == from[b] != NULL
    {
      NumberedOnce(keys, seen, pos, b, c);
    }
  }

  lemma NumbersStepSlot(keys: seq<Byte>, children: seq<Ptr>, from: seq<Ptr>, seen: set<Byte>, pos: nat, c: Byte, i: nat)
    returns (b: Byte)
    requires Numbers(keys, children, from, seen, pos) && pos < 48 && c !in seen
    requires |keys| == |from| == 256 && |children| == 48
    requires i < 48 && (i == pos || children[i] != NULL)
    ensures i < pos + 1 && keys[c := pos + 1][b] == i + 1
  {
    hide NumbersKeys;
    if i == pos {
      b := c;
    } else {
      b :| keys[b] == i + 1;
      NumberedOnce(keys, seen, pos, b, c);
    }
  }

  lemma NumberedOnce(keys: seq<Byte>, seen: set<Byte>, pos: nat, b: Byte, c: Byte)
    requires NumbersKeys(keys, seen, pos) && |keys| == 256 && c !in seen
    ensures keys[c] == 0 && keys[b] <= pos
  {
  }

  method Shrink256(n: Node) returns (r: Node)
    requires LayoutOk(n) && n.kind.Kind256? && |Kids(n)| == 37
    ensures LayoutOk(r) && r.kind.Kind48? && SameHeader(r, n) && Kids(r) == Kids(n)
  {
    hide Kids, Numbers;
    var m := AllocNode(Kind48);
    forall b: Byte
      ensures n.children[b] != NULL <==> b in Kids(n).Keys
    {
      Kid256(n, b);
    }
    var keys, children := NumberChildren(n.children, Kids(n).Keys);
    NumberedKids(n, keys, children);
    r := CopyHeader(m, n).(keys := keys, children := children);
    NumberedLayout(n, r);
  }

  lemma NumberedKids(n: Node, keys: seq<Byte>, children: seq<Ptr>)
    requires Sized(n) && n.kind.Kind256? && |Kids(n)| == 37
    requires Numbers(keys, children, n.children, Kids(n).Keys, 37)
    ensures |keys| == 256 && |children| == 48 && forall b: Byte :: keys[b] <= 48
  {
    hide Kids;
  }

  lemma NumberedLayout(n: Node, r: Node)
    requires Sized(n) && n.kind.Kind256? && |Kids(n)| == 37
    requires Sized(r) && r.kind.Kind48? && r.numChildren == 37
    requires Numbers(r.keys, r.children, n.children, Kids(n).Keys, 37)
    ensures LayoutOk(r) && Kids(r) == Kids(n)
  {
    hide Kids, IndexOk, Numbers;
    forall b: Byte
      ensures b in Kids(r) <==> b in Kids(n)
      ensures b in Kids(n) ==> Kids(r)[b] == Kids(n)[b]
    {
      NumberedKid(n, r, b);
    }
    assert Kids(r) == Kids(n);
    NumberedIndex(n, r);
    Layout48(r);
  }

  lemma NumberedKid(n: Node, r: Node, b: Byte)
    requires Sized(n) && n.kind.Kind256? && Sized(r) && r.kind.Kind48?
    requires Numbers(r.keys, r.children, n.children, Kids(n).Keys, 37)
    ensures b in Kids(r) <==> b in Kids(n)
    ensures b in Kids(n) ==> Kids(r)[b] == Kids(n)[b]
  {
    hide Kids;
    Kid48(r, b);
    Kid256(n, b);
  }

  lemma NumberedIndex(n: Node, r: Node)
    requires Sized(n) && n.kind.Kind256? && Sized(r) && r.kind.Kind48?
    requires Numbers(r.keys, r.children, n.children, Kids(n).Keys, 37)
    ensures IndexOk(r)
  {
    hide Kids;
  }

  method RemoveChild256(n: Node, c: Byte) returns (r: Node)
    requires LayoutOk(n) && n.kind.Kind256? && c in Kids(n) && |Kids(n)| >= 38
    ensures Removed(n, r, c) && r.kind == (if |Kids(n)| == 38 then Kind48 else Kind256)
  {
    hide Kids;
    r := n.(children := n.children[c := NULL], numChildren := (n.numChildren + 255) % 256);
    Removed256(n, r, c);
    if r.numChildren == 37 {
      r := Shrink256(r);
    }
  }

  lemma Removed256(n: Node, r: Node, c: Byte)
    requires LayoutOk(n) && Sized(n) && n.kind.Kind256? && c in Kids(n)
    requires r == n.(children := n.children[c := NULL], numChildren := (n.numChildren + 255) % 256)
    ensures Removed(n, r, c) && (r.numChildren == 37 <==> |Kids(n)| == 38) && |Kids(r)| == |Kids(n)| - 1
  {
    hide Kids;
    Kids256Update(n, r, c, NULL);
    assert |Kids(r)| == |Kids(n)| - 1;
    AtMost256(Kids(n).Keys);
  }

  lemma AtMost256(s: set<Byte>)
    ensures |s| <= 256
  {
    BytesBelow(s, 256);
  }

  lemma {:induction false} BytesBelow(s: set<Byte>, k: nat)
    requires k <= 256 && forall b :: b in s ==> b < k
    ensures |s| <= k
  {
    if k > 0 { BytesBelow(s - {k - 1}, k - 1); }
  }

  /** Remove the child for byte c, which sits in `slot`. */
  method RemoveChild(n: Node, c: Byte, slot: nat) returns (r: Node)
    requires NodeOk(n) && c in Kids(n) && slot == SlotOf(n, c)
    ensures Removed(n, r, c) && r.kind == ShrinksTo(n.kind, |Kids(n)|)
    ensures n.kind.Kind16? ==> (r.kind.Kind4? <==> |Kids(n)| == 4)
    ensures n.kind.Kind48? ==> (r.kind.Kind16? <==> |Kids(n)| == 13)
    ensures n.kind.Kind256? ==> (r.kind.Kind48? <==> |Kids(n)| == 38)
    ensures if IsList(n) then ListDropped(n, r, slot) else Ascends(r)
  {
    KindOfList(n);
    hide Kids, LayoutOk, ListDropped, Removed, SlotOf;
    match n.kind
    case Kind4 => SlotIsKey(n, c); r := RemoveChild4(n, slot);
    case Kind16 => SlotIsKey(n, c); r := RemoveChild16(n, slot);
    case Kind48 => r := RemoveChild48(n, c);
    case Kind256 => r := RemoveChild256(n, c);
  }

  lemma SlotIsKey(n: Node, c: Byte)
    requires Sized(n) && IsList(n) && c in Kids(n)
    ensures 0 <= SlotOf(n, c) < n.numChildren && n.keys[SlotOf(n, c)] == c
  {
  }

  // ----- changes in place -----

  function SetChild(n: Node, slot: nat, child: Ptr): Node
    requires Sized(n) && slot < |n.children|
  {
    n.(children := n.children[slot := child])
  }

  /** Storing through a slot exchanges the child of one byte and nothing else. */
  lemma SetChildMeans(n: Node, c: Byte, slot: nat, child: Ptr)
    requires LayoutOk(n) && c in Kids(n) && slot == SlotOf(n, c) && slot < |n.children| && child != NULL
    ensures var r := SetChild(n, slot, child);
      LayoutOk(r) && SameHeader(r, n) && r.kind == n.kind && Kids(r) == Kids(n)[c := child]
  {
    hide Kids;
    hide LayoutOk, SlotOf;
    LayoutSized(n);
    var r := SetChild(n, slot, child);
    var m := Kids(n)[c := child];
    SetChildHeader(n, c, slot, child);
    forall b: Byte
      ensures b in Kids(r) <==> b in m
      ensures b in m ==> Kids(r)[b] == m[b]
    {
      SetChildAt(n, c, slot, child, b);
    }
    assert Kids(r) == m;
    assert m.Keys == Kids(n).Keys;
    SetChildLayout(n, slot, child);
  }

  lemma SetChildHeader(n: Node, c: Byte, slot: nat, child: Ptr)
    requires LayoutOk(n) && c in Kids(n) && slot == SlotOf(n, c) && slot < |n.children| && child != NULL
    ensures var r := SetChild(n, slot, child);
      Sized(n) && Sized(r) && SameHeader(r, n) && n.children[slot] != NULL
  {
    hide LayoutOk;
    LayoutSized(n);
  }

  lemma LayoutSized(n: Node)
    requires LayoutOk(n)
    ensures Sized(n)
  {
    hide Kids;
  }

  lemma SetChildAt(n: Node, c: Byte, slot: nat, child: Ptr, b: Byte)
    requires LayoutOk(n) && c in Kids(n) && slot == SlotOf(n, c) && slot < |n.children| && child != NULL
    ensures var r := SetChild(n, slot, child);
      && Sized(r)
      && (b in Kids(r) <==> b in Kids(n))
      && (b == c ==> b in Kids(r) && Kids(r)[b] == child)
      && (b != c && b in Kids(n) ==> Kids(r)[b] == Kids(n)[b])
  {
    hide LayoutOk, SlotOf;
    LayoutSized(n);
    if b != c && b in Kids(n) { SlotsDiffer(n, b, c); }
    ChildSet(n, slot, child, c);
    ChildSet(n, slot, child, b);
  }

  lemma ChildSet(n: Node, slot: nat, child: Ptr, b: Byte)
    requires Sized(n) && slot < |n.children|
    ensures Sized(SetChild(n, slot, child))
    ensures ChildOf(SetChild(n, slot, child), b) == if SlotOf(n, b) == slot then child else ChildOf(n, b)
  {
    hide SlotOf;
    SameSlots(n, SetChild(n, slot, child), b);
  }

  lemma SameSlots(n: Node, r: Node, b: Byte)
    requires Sized(n) && Sized(r) && r.kind == n.kind && r.keys == n.keys && r.numChildren == n.numChildren
    ensures SlotOf(r, b) == SlotOf(n, b)
  {
  }

  lemma SlotsDiffer(n: Node, b: Byte, c: Byte)
    requires LayoutOk(n) && b in Kids(n) && c in Kids(n) && b != c
    ensures SlotOf(n, b) != SlotOf(n, c)
  {
    match n.kind
    case Kind48 => DistinctSlots(n, b, c);
    case Kind256 =>
    case _ => SlotIsKey(n, b); SlotIsKey(n, c);
  }

  lemma SetChildLayout(n: Node, slot: nat, child: Ptr)
    requires LayoutOk(n) && slot < |n.children| && child != NULL && n.children[slot] != NULL
    requires Sized(SetChild(n, slot, child)) && |Kids(SetChild(n, slot, child))| == |Kids(n)|
    ensures LayoutOk(SetChild(n, slot, child))
  {
    hide Kids, SlotOf, IndexOf;
    var r := SetChild(n, slot, child);
    if n.kind.Kind48? {
      SetChildIndex(n, slot, child);
    }
  }

  lemma SetChildIndex(n: Node, slot: nat, child: Ptr)
    requires Sized(n) && n.kind.Kind48? && IndexOk(n)
    requires slot < |n.children| && child != NULL && n.children[slot] != NULL
    requires Sized(SetChild(n, slot, child))
    ensures IndexOk(SetChild(n, slot, child))
  {
    var r := SetChild(n, slot, child);
    forall i | 0 <= i < 48 && r.children[i] != NULL
      ensures exists b: Byte :: r.keys[b] == i + 1
    {
      var b := KeyOfSlotIn(n, i);
      assert r.keys[b] == i + 1;
    }
  }

  /** Changing the header leaves the children alone. */
  lemma HeaderOnly(n: Node, r: Node)
    requires NodeOk(n) && |r.partial| == MAX_PREFIX_LEN
    requires r == n.(partialLen := r.partialLen, partial := r.partial)
    ensures NodeOk(r) && Kids(r) == Kids(n)
  {
    hide Kids, IndexOk, ListOk;
    HeaderSized(n, r);
    HeaderKids(n, r);
  }

  lemma HeaderSized(n: Node, r: Node)
    requires Sized(n) && |r.partial| == MAX_PREFIX_LEN
    requires r == n.(partialLen := r.partialLen, partial := r.partial)
    ensures Sized(r)
    ensures n.kind.Kind48? && IndexOk(n) ==> IndexOk(r)
    ensures (n.kind.Kind4? || n.kind.Kind16?) && ListOk(n) ==> ListOk(r)
  {
  }

  lemma HeaderKids(n: Node, r: Node)
    requires Sized(n) && Sized(r) && r.kind == n.kind && r.keys == n.keys
    requires r.numChildren == n.numChildren && r.children == n.children
    ensures Kids(r) == Kids(n)
  {
    forall b: Byte
      ensures ChildOf(r, b) == ChildOf(n, b)
    {
      SameSlots(n, r, b);
    }
  }

  /** The child `minimum` descends to: the first of a list, or that of the first key byte in use. */
  method FirstChild(n: Node) returns (ghost c: Byte, p: Ptr)
    requires NodeOk(n)
    ensures c in Kids(n) && p == Kids(n)[c]
    ensures p in Kids(n).Values
    ensures IsList(n) ==> 0 < n.numChildren && c == n.keys[0]
    ensures Ascends(n) ==> forall b: Byte :: b in Kids(n) ==> c <= b
  {
    hide *;
    LayoutOfOk(n);
    KindOfList(n);
    match n.kind
    case Kind48 => c, p := FirstByIndex(n);
    case Kind256 => c, p := FirstInArray(n);
    case _ =>
      c, p := n.keys[0], n.children[0];
      FirstInList(n);
  }

  lemma LayoutOfOk(n: Node)
    requires NodeOk(n)
    ensures LayoutOk(n) && Sized(n) && |n.children| == Capacity(n.kind) && |n.keys| == KeySlots(n.kind)
    ensures n.kind.Kind4? || n.kind.Kind16? ==> 0 < n.numChildren <= |n.keys| == |n.children|
  {
    hide Kids;
  }

  lemma FirstInList(n: Node)
    requires NodeOk(n) && IsList(n)
    ensures 0 < n.numChildren && n.keys[0] in Kids(n) && Kids(n)[n.keys[0]] == n.children[0]
    ensures n.children[0] in Kids(n).Values
    ensures Ascends(n) ==> forall b: Byte :: b in Kids(n) ==> n.keys[0] <= b
  {
    hide Kids;
    ListFacts(n);
    ListKid(n, 0);
    if Ascends(n) {
      forall b: Byte | b in Kids(n) ensures n.keys[0] <= b {
        var i := KidIndex(n, b);
      }
    }
  }

  method FirstByIndex(n: Node) returns (ghost c: Byte, p: Ptr)
    requires NodeOk(n) && Sized(n) && n.kind.Kind48?
    ensures c in Kids(n) && p == Kids(n)[c] && forall b: Byte :: b in Kids(n) ==> c <= b
  {
    hide Kids;
    ghost var some := SomeKid(n);
    UsedKeys48(n);
    var idx := 0;
    while n.keys[idx] == 0
      invariant 0 <= idx <= some && forall x: Byte :: x < idx ==> n.keys[x] == 0
      decreases 256 - idx
    {
      idx := idx + 1;
    }
    c, p := idx, n.children[n.keys[idx] - 1];
    Kid48(n, idx);
  }

  method FirstInArray(n: Node) returns (ghost c: Byte, p: Ptr)
    requires NodeOk(n) && Sized(n) && n.kind.Kind256?
    ensures c in Kids(n) && p == Kids(n)[c] && forall b: Byte :: b in Kids(n) ==> c <= b
  {
    hide Kids;
    ghost var some := SomeKid(n);
    Kids256(n);
    var idx := 0;
    while n.children[idx] == NULL
      invariant 0 <= idx <= some && forall x: Byte :: x < idx ==> n.children[x] == NULL
      decreases 256 - idx
    {
      idx := idx + 1;
    }
    c, p := idx, n.children[idx];
    Kid256(n, idx);
  }

  lemma Kids256(n: Node)
    requires Sized(n) && n.kind.Kind256?
    ensures forall b: Byte :: b in Kids(n) <==> n.children[b] != NULL
  {
    forall b: Byte ensures b in Kids(n) <==> n.children[b] != NULL { Kid256(n, b); }
  }

  lemma SomeKid(n: Node) returns (b: Byte)
    requires NodeOk(n)
    ensures b in Kids(n)
  {
    hide Kids;
    assert Kids(n) != map[];
    b :| b in Kids(n);
  }

  // ----- how often a node is resized -----

  /** A change of a node: a child added, or the child for a byte removed. */
  datatype Change = Gain(c: Byte, child: Ptr) | Lose(c: Byte)

  /** A change that a node can undergo while it lives: a node that would be left with one child is taken out of the
      tree instead. */
  ghost predicate Possible(m: map<Byte, Ptr>, change: Change) {
    match change
    case Gain(c, child) => c !in m && child != NULL
    case Lose(c) => c in m && |m| > 2
  }

  ghost function Changed(m: map<Byte, Ptr>, change: Change): map<Byte, Ptr> {
    match change
    case Gain(c, child) => m[c := child]
    case Lose(c) => m - {c}
  }

  ghost function AllChanged(m: map<Byte, Ptr>, changes: seq<Change>): map<Byte, Ptr>
    decreases |changes|
  {
    if changes == [] then m else Changed(AllChanged(m, changes[..|changes| - 1]), changes[|changes| - 1])
  }

  /** Changes that a node has saved up since it was last resized. */
  ghost function Saved(kind: Kind, count: nat): (s: int)
    ensures MinChildren(kind) <= count <= 256 && (!kind.Kind256? ==> count <= Capacity(kind)) ==> s >= 0
  {
    match kind
    case Kind4 => count - 2
    case Kind16 => if count == 4 then 2 else 1
    case Kind48 => if count <= 17 then 17 - count else 1
    case Kind256 => if count < 49 then 49 - count else 0
  }

  ghost predicate Fits(kind: Kind, count: nat) {
    MinChildren(kind) <= count <= 256 && (!kind.Kind256? ==> count <= Capacity(kind))
  }

  lemma GainPays(kind: Kind, count: nat)
    requires Fits(kind, count) && count < 256
    ensures var kind' := GrowsTo(kind, count);
      && MinChildren(kind') <= count + 1
      && (if kind' == kind then 0 else 2) + Saved(kind', count + 1) <= 1 + Saved(kind, count)
  {
  }

  lemma LossPays(kind: Kind, count: nat)
    requires Fits(kind, count) && count > 2
    ensures var kind' := ShrinksTo(kind, count);
      && MinChildren(kind') <= count - 1
      && (if kind' == kind then 0 else 2) + Saved(kind', count - 1) <= 1 + Saved(kind, count)
  {
  }

  /** What a change costs is paid for: two for a resize, out of one for each change and what has been saved up. */
  ghost predicate Paid(n: Node, r: Node)
    requires Sized(n) && Sized(r)
  {
    (if r.kind == n.kind then 0 else 2) + Saved(r.kind, |Kids(r)|) <= 1 + Saved(n.kind, |Kids(n)|)
  }

  method GainChild(n: Node, c: Byte, child: Ptr) returns (r: Node)
    requires NodeOk(n) && Sized(n) && c !in Kids(n) && child != NULL
    ensures NodeOk(r) && Sized(r) && Kids(r) == Kids(n)[c := child] && Paid(n, r)
  {
    hide *;
    NodeParts(n);
    r := AddChild(n, c, child);
    AddedFacts(n, r, c, child);
    GainFits(n, r, c, child);
    GainPays(n.kind, |Kids(n)|);
    NodeIs(r);
    PaidIs(n, r);
  }

  method LoseChild(n: Node, c: Byte) returns (r: Node)
    requires NodeOk(n) && Sized(n) && c in Kids(n) && |Kids(n)| > 2
    ensures NodeOk(r) && Sized(r) && Kids(r) == Kids(n) - {c} && Paid(n, r)
  {
    hide *;
    NodeParts(n);
    var slot := FindChild(n, c);
    r := RemoveChild(n, c, slot);
    RemovedFacts(n, r, c);
    OneLess(Kids(n), c);
    LossPays(n.kind, |Kids(n)|);
    NodeIs(r);
    PaidIs(n, r);
  }

  lemma PaidIs(n: Node, r: Node)
    requires Sized(n) && Sized(r)
    ensures Paid(n, r) <==>
      (if r.kind == n.kind then 0 else 2) + Saved(r.kind, |Kids(r)|) <= 1 + Saved(n.kind, |Kids(n)|)
  {
  }

  lemma PossibleIs(m: map<Byte, Ptr>, change: Change)
    requires Possible(m, change)
    ensures change.Gain? ==> change.c !in m && change.child != NULL && Changed(m, change) == m[change.c := change.child]
    ensures change.Lose? ==> change.c in m && |m| > 2 && Changed(m, change) == m - {change.c}
  {
  }

  lemma NodeParts(n: Node)
    requires NodeOk(n)
    ensures LayoutOk(n) && Sized(n) && Fits(n.kind, |Kids(n)|)
  {
    hide Kids;
    KidsFit(n);
  }

  lemma NodeIs(n: Node)
    requires LayoutOk(n) && Sized(n) && MinChildren(n.kind) <= |Kids(n)|
    ensures NodeOk(n)
  {
    hide Kids;
  }

  lemma GainFits(n: Node, r: Node, c: Byte, child: Ptr)
    requires Sized(n) && Sized(r) && LayoutOk(r) && Kids(r) == Kids(n)[c := child] && c !in Kids(n)
    ensures |Kids(r)| == |Kids(n)| + 1 <= 256
  {
    hide Kids, LayoutOk;
    KidsFit(r);
  }

  lemma AddedFacts(n: Node, r: Node, c: Byte, p: Ptr)
    requires Added(n, r, c, p)
    ensures LayoutOk(r) && Sized(r) && Sized(n) && Kids(r) == Kids(n)[c := p]
    ensures r.partialLen == n.partialLen && Stored(r) == Stored(n)
  {
    hide Kids;
  }

  lemma RemovedFacts(n: Node, r: Node, c: Byte)
    requires Removed(n, r, c)
    ensures LayoutOk(r) && Sized(r) && Sized(n) && Kids(r) == Kids(n) - {c}
    ensures r.partialLen == n.partialLen && Stored(r) == Stored(n)
  {
    hide Kids;
  }

  lemma KidsFit(n: Node)
    requires LayoutOk(n)
    ensures |Kids(n)| <= 256 && (!n.kind.Kind256? ==> |Kids(n)| <= Capacity(n.kind))
  {
    hide Kids;
    AtMost256(Kids(n).Keys);
    if n.kind.Kind48? { AtMost48(n); }
  }

  /** How often the layout differs from that of the node before. */
  ghost function LayoutChanges(steps: seq<Node>): nat
    decreases |steps|
  {
    if |steps| < 2 then 0
    else
      var n := |steps| - 1;
      LayoutChanges(steps[..n]) + if steps[n].kind == steps[n - 1].kind then 0 else 1
  }

  /** Any run of additions and removals on a node that starts with two children changes its layout at most once in two
      steps: the gap between growing and shrinking pays for it. */
  method FreshNodeResizes(n: Node, changes: seq<Change>) returns (r: Node, resizes: nat, ghost steps: seq<Node>)
    requires NodeOk(n) && n.kind.Kind4? && |Kids(n)| == 2
    requires forall i :: 0 <= i < |changes| ==> Possible(AllChanged(Kids(n), changes[..i]), changes[i])
    ensures NodeOk(r) && Kids(r) == AllChanged(Kids(n), changes)
    ensures |steps| == |changes| + 1 && steps[0] == n && steps[|changes|] == r
    ensures forall i :: 0 <= i < |steps| ==> NodeOk(steps[i]) && Kids(steps[i]) == AllChanged(Kids(n), changes[..i])
    ensures resizes == LayoutChanges(steps) && 2 * resizes <= |changes|
  {
    hide *;
    NodeSized(n);
    SavedNone(n);
    ChangedNone(Kids(n), changes);
    r, resizes, steps := n, 0, [n];
    NoLayoutChanges(n);
    var i := 0;
    while i < |changes|
      invariant i <= |changes| && NodeOk(r) && Sized(r) && Sized(n) && Kids(r) == AllChanged(Kids(n), changes[..i])
      invariant 2 * resizes + Saved(r.kind, |Kids(r)|) <= i
      invariant |steps| == i + 1 && steps[0] == n && steps[i] == r && resizes == LayoutChanges(steps)
      invariant forall k :: 0 <= k <= i ==>
        NodeOk(steps[k]) && Sized(steps[k]) && Kids(steps[k]) == AllChanged(Kids(n), changes[..k])
    {
      ChangedMore(Kids(n), changes, i);
      PossibleIs(Kids(r), changes[i]);
      ghost var was := r;
      var kind := r.kind;
      match changes[i] {
        case Gain(c, child) => r := GainChild(r, c, child);
        case Lose(c) => r := LoseChild(r, c);
      }
      PaidIs(was, r);
      if r.kind != kind { resizes := resizes + 1; }
      MoreLayoutChanges(steps, r);
      steps := steps + [r];
      i := i + 1;
    }
    assert changes[..|changes|] == changes;
    SavedSome(r);
  }

  lemma NoLayoutChanges(n: Node)
    ensures LayoutChanges([n]) == 0
  {
  }

  lemma MoreLayoutChanges(steps: seq<Node>, r: Node)
    requires steps != []
    ensures LayoutChanges(steps + [r]) == LayoutChanges(steps) + if r.kind == steps[|steps| - 1].kind then 0 else 1
  {
    assert (steps + [r])[..|steps|] == steps;
  }

  lemma ChangedNone(m: map<Byte, Ptr>, changes: seq<Change>)
    ensures AllChanged(m, changes[..0]) == m
  {
  }

  lemma ChangedMore(m: map<Byte, Ptr>, changes: seq<Change>, i: nat)
    requires i < |changes|
    ensures AllChanged(m, changes[..i + 1]) == Changed(AllChanged(m, changes[..i]), changes[i])
  {
    assert changes[..i + 1][..i] == changes[..i];
  }

  lemma NodeSized(n: Node)
    requires NodeOk(n)
    ensures Sized(n)
  {
    hide Kids;
  }

  lemma SavedNone(n: Node)
    requires Sized(n) && n.kind.Kind4? && |Kids(n)| == 2
    ensures Saved(n.kind, |Kids(n)|) == 0
  {
    hide Kids;
  }

  lemma SavedSome(n: Node)
    requires NodeOk(n)
    ensures Saved(n.kind, |Kids(n)|) >= 0
  {
    hide Kids;
    KidsFit(n);
  }
}
