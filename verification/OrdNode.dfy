/** Inner nodes of the ordered adaptive radix tree: four layouts that keep their children in the order of
    their unsigned key bytes. */
module OrdNode {
  import opened ArtShape
  import opened SetFacts
  import A = ArtNode

  type Byte = A.Byte

  const MAX_PREFIX: nat := 9
  /** `emptyMarker` */
  const EMPTY: nat := 48

  datatype Header = Header(length: nat, prefix: seq<Byte>)

  /** Node16 holds its key bytes with the sign bit flipped. */
  datatype Node<T> =
    | Node4(header: Header, count: nat, key: seq<Byte>, child: seq<Option<T>>)
    | Node16(header: Header, count: nat, key: seq<Byte>, child: seq<Option<T>>)
    | Node48(header: Header, count: nat, childIndex: seq<Byte>, child: seq<Option<T>>)
    | Node256(header: Header, count: nat, child: seq<Option<T>>)

  /** `flipSign` */
  function Flip(b: Byte): Byte {
    if b < 128 then b + 128 else b - 128
  }

  /** A byte as the SSE comparison reads it. */
  function Signed(b: Byte): int {
    if b < 128 then b else b - 256
  }

  lemma FlipLaws(b: Byte, c: Byte)
    ensures Flip(Flip(b)) == b
    ensures Signed(Flip(b)) < Signed(Flip(c)) <==> b < c
    ensures Flip(b) == Flip(c) <==> b == c
  {
  }

  function Flipped(s: seq<Byte>): (r: seq<Byte>)
    ensures |r| == |s| && forall i :: 0 <= i < |s| ==> r[i] == Flip(s[i])
  {
    seq(|s|, i requires 0 <= i < |s| => Flip(s[i]))
  }

  // ---------------------------------------------------------------- what a node shows

  /** The first entries of two parallel arrays are the bindings of m, by ascending byte. */
  ghost predicate ListShows<T(!new)>(key: seq<Byte>, child: seq<Option<T>>, count: nat, m: map<Byte, T>) {
    && count <= |key| == |child| && count == |m|
    && (forall i, j :: 0 <= i < j < count ==> key[i] < key[j])
    && (forall i :: 0 <= i < count ==> key[i] in m && child[i] == Some(m[key[i]]))
    && (forall b: Byte :: b in m ==> HasByte(key, count, b))
  }

  ghost predicate HasByte(key: seq<Byte>, count: nat, b: Byte)
    requires count <= |key|
  {
    exists i :: 0 <= i < count && key[i] == b
  }

  /** Each byte of m has a place of its own among the 48; the other places are free. */
  ghost predicate IndexShows<T(!new)>(index: seq<Byte>, child: seq<Option<T>>, count: nat, m: map<Byte, T>) {
    && |index| == 256 && |child| == 48 && count == |m|
    && (forall b: Byte :: index[b] <= 48)
    && (forall b: Byte :: b in m <==> index[b] != 48)
    && (forall b: Byte :: b in m ==> index[b] < 48 && child[index[b]] == Some(m[b]))
    && (forall b: Byte, c: Byte :: b in m && c in m && index[b] == index[c] ==> b == c)
    && (forall i :: 0 <= i < 48 && child[i].Some? ==> HasPlace(index, i))
  }

  ghost predicate HasPlace(index: seq<Byte>, i: int)
    requires |index| == 256
  {
    exists b: Byte :: index[b] == i
  }

  ghost predicate ArrayShows<T(!new)>(child: seq<Option<T>>, count: nat, m: map<Byte, T>) {
    && |child| == 256 && count == |m|
    && forall b: Byte :: child[b] == if b in m then Some(m[b]) else None
  }

  /** The node's children by key byte. */
  ghost predicate Shows<T(!new)>(n: Node<T>, m: map<Byte, T>) {
    match n
    case Node4(_, count, key, child) => |key| == 4 && ListShows(key, child, count, m)
    case Node16(_, count, key, child) => |key| == 16 && ListShows(Flipped(key), child, count, m)
    case Node48(_, count, index, child) => IndexShows(index, child, count, m)
    case Node256(_, count, child) => ArrayShows(child, count, m)
  }

  /** Between operations a node has as many children as its layout is for. */
  ghost predicate RightSize<T(!new)>(n: Node<T>) {
    match n
    case Node4(_, count, _, _) => 2 <= count <= 4
    case Node16(_, count, _, _) => 4 <= count <= 16
    case Node48(_, count, _, _) => 13 <= count <= 48
    case Node256(_, count, _) => 38 <= count <= 256
  }

  // ---------------------------------------------------------------- sizes of maps

  lemma OneMore<T>(m: map<Byte, T>, b: Byte, c: T)
    requires b !in m
    ensures |m[b := c]| == |m| + 1
  {
    assert m[b := c].Keys == m.Keys + {b};
    assert |m[b := c].Keys| == |m.Keys| + 1;
  }

  lemma OneLess<T>(m: map<Byte, T>, b: Byte)
    requires b in m
    ensures |m - {b}| == |m| - 1
  {
    assert (m - {b}).Keys == m.Keys - {b};
    assert |m.Keys - {b}| == |m.Keys| - 1;
  }

  // ---------------------------------------------------------------- lists

  function Inserted<X>(s: seq<X>, count: nat, pos: nat, x: X): (r: seq<X>)
    requires pos <= count < |s|
    ensures |r| == |s| && r[pos] == x
    ensures forall i :: 0 <= i < pos ==> r[i] == s[i]
    ensures forall i :: pos < i <= count ==> r[i] == s[i - 1]
  {
    s[..pos] + [x] + s[pos..count] + s[count + 1..]
  }

  function Removed<X>(s: seq<X>, count: nat, pos: nat): (r: seq<X>)
    requires pos < count <= |s|
    ensures |r| == |s|
    ensures forall i :: 0 <= i < pos ==> r[i] == s[i]
    ensures forall i :: pos <= i < count - 1 ==> r[i] == s[i + 1]
  {
    s[..pos] + s[pos + 1..count] + s[count - 1..]
  }

  /** A new byte goes between the smaller and the larger ones. */
  lemma ListInserted<T(!new)>(key: seq<Byte>, child: seq<Option<T>>, count: nat, m: map<Byte, T>, pos: nat, b: Byte,
                       c: T)
    requires ListShows(key, child, count, m) && pos <= count < |key| && b !in m
    requires forall i :: 0 <= i < pos ==> key[i] < b
    requires pos < count ==> b < key[pos]
    ensures ListShows(Inserted(key, count, pos, b), Inserted(child, count, pos, Some(c)), count + 1, m[b := c])
  {
    var k, ch, m' := Inserted(key, count, pos, b), Inserted(child, count, pos, Some(c)), m[b := c];
    OneMore(m, b, c);
    StillAscends(key, count, pos, b);
    hide Inserted;
    forall i | 0 <= i < count + 1 ensures k[i] in m' && ch[i] == Some(m'[k[i]]) {
      if i < pos {
      } else if i > pos {
        assert k[i] == key[i - 1];
      }
    }
    forall x: Byte | x in m' ensures HasByte(k, count + 1, x) {
      if x == b {
        assert k[pos] == b;
      } else {
        assert HasByte(key, count, x);
        var i :| 0 <= i < count && key[i] == x;
        assert k[if i < pos then i else i + 1] == x;
      }
    }
  }

  lemma StillAscends(key: seq<Byte>, count: nat, pos: nat, b: Byte)
    requires pos <= count < |key| && forall i, j :: 0 <= i < j < count ==> key[i] < key[j]
    requires forall i :: 0 <= i < pos ==> key[i] < b
    requires pos < count ==> b < key[pos]
    ensures var k := Inserted(key, count, pos, b); forall i, j :: 0 <= i < j < count + 1 ==> k[i] < k[j]
  {
    var k := Inserted(key, count, pos, b);
    hide Inserted;
    forall i, j | 0 <= i < j < count + 1 ensures k[i] < k[j] {
      if j <= pos {
      } else {
        assert k[j] == key[j - 1] && b < key[j - 1];
        if i > pos { assert k[i] == key[i - 1]; }
      }
    }
  }

  lemma ListRemoved<T(!new)>(key: seq<Byte>, child: seq<Option<T>>, k: seq<Byte>, ch: seq<Option<T>>, count: nat,
                      m: map<Byte, T>, pos: nat)
    requires ListShows(key, child, count, m) && Closer(key, k, count, pos) && Closer(child, ch, count, pos)
    ensures ListShows(k, ch, count - 1, m - {key[pos]})
  {
    var m' := m - {key[pos]};
    OneLess(m, key[pos]);
    CloserAscends(key, k, count, pos);
    CloserChildren(key, child, k, ch, count, m, pos);
    hide Closer;
    forall x: Byte | x in m' ensures HasByte(k, count - 1, x) {
      StillHas(key, k, count, pos, x);
    }
  }

  /** A list without the element at pos. */
  ghost predicate Closer<X(!new)>(s: seq<X>, r: seq<X>, count: nat, pos: nat) {
    && pos < count <= |s| == |r|
    && forall i :: 0 <= i < count - 1 ==> r[i] == s[if i < pos then i else i + 1]
  }

  lemma CloserAscends(key: seq<Byte>, k: seq<Byte>, count: nat, pos: nat)
    requires Closer(key, k, count, pos) && forall i, j :: 0 <= i < j < count ==> key[i] < key[j]
    ensures forall i, j :: 0 <= i < j < count - 1 ==> k[i] < k[j]
    ensures forall i :: 0 <= i < count - 1 ==> k[i] != key[pos]
  {
  }

  lemma CloserChildren<T(!new)>(key: seq<Byte>, child: seq<Option<T>>, k: seq<Byte>, ch: seq<Option<T>>, count: nat,
                         m: map<Byte, T>, pos: nat)
    requires ListShows(key, child, count, m) && Closer(key, k, count, pos) && Closer(child, ch, count, pos)
    ensures forall i :: 0 <= i < count - 1 ==> k[i] in m && ch[i] == Some(m[k[i]])
  {
  }

  lemma StillHas(key: seq<Byte>, k: seq<Byte>, count: nat, pos: nat, x: Byte)
    requires Closer(key, k, count, pos) && HasByte(key, count, x) && x != key[pos]
    ensures HasByte(k, count - 1, x)
  {
    var i :| 0 <= i < count && key[i] == x;
    assert k[if i < pos then i else i - 1] == x;
  }

  lemma FlippedInserted(key: seq<Byte>, count: nat, pos: nat, b: Byte)
    requires pos <= count < |key|
    ensures Flipped(Inserted(key, count, pos, Flip(b)))[..count + 1]
      == Inserted(Flipped(key), count, pos, b)[..count + 1]
  {
    FlipLaws(b, b);
    var x, y := Flipped(Inserted(key, count, pos, Flip(b))), Inserted(Flipped(key), count, pos, b);
    forall i | 0 <= i < count + 1 ensures x[i] == y[i] {
      if i < pos { } else if i == pos { } else { }
    }
  }

  lemma RemovedCloser<X(!new)>(s: seq<X>, count: nat, pos: nat)
    requires pos < count <= |s|
    ensures Closer(s, Removed(s, count, pos), count, pos)
  {
  }

  lemma FlippedRemoved(key: seq<Byte>, count: nat, pos: nat)
    requires pos < count <= |key|
    ensures Closer(Flipped(key), Flipped(Removed(key, count, pos)), count, pos)
  {
    RemovedCloser(key, count, pos);
    hide Removed;
  }

  /** Only the first entries of a list count. */
  lemma ListSame<T(!new)>(key: seq<Byte>, child: seq<Option<T>>, key': seq<Byte>, child': seq<Option<T>>, count: nat,
                   m: map<Byte, T>)
    requires ListShows(key, child, count, m) && |key'| == |child'| && count <= |key'|
    requires key'[..count] == key[..count] && child'[..count] == child[..count]
    ensures ListShows(key', child', count, m)
  {
    assert forall i :: 0 <= i < count ==> key'[..count][i] == key'[i] && key[..count][i] == key[i];
    assert forall i :: 0 <= i < count ==> child'[..count][i] == child'[i] && child[..count][i] == child[i];
    forall b: Byte | b in m ensures HasByte(key', count, b) {
      assert HasByte(key, count, b);
      var i :| 0 <= i < count && key[i] == b;
      assert key'[i] == b;
    }
  }

  // ---------------------------------------------------------------- finding a child

  /** The place of a byte in a list, or its length. */
  method FindByte(key: seq<Byte>, count: nat, b: Byte) returns (i: nat)
    requires count <= |key|
    ensures i <= count && (i < count ==> key[i] == b) && forall j :: 0 <= j < i ==> key[j] != b
  {
    i := 0;
    while i < count && key[i] != b
      invariant i <= count && forall j :: 0 <= j < i ==> key[j] != b
    {
      i := i + 1;
    }
  }

  lemma FoundInList<T(!new)>(key: seq<Byte>, child: seq<Option<T>>, count: nat, m: map<Byte, T>, b: Byte, i: nat)
    requires ListShows(key, child, count, m) && i <= count && (i < count ==> key[i] == b)
    requires forall j :: 0 <= j < i ==> key[j] != b
    ensures b in m <==> i < count
    ensures i < count ==> child[i] == Some(m[b])
  {
    if b in m { assert HasByte(key, count, b); }
  }

  /** `findChild` */
  method FindChild<T(!new)>(n: Node<T>, b: Byte, ghost m: map<Byte, T>) returns (c: Option<T>)
    requires Shows(n, m)
    ensures c == if b in m then Some(m[b]) else None
  {
    match n {
      case Node4(_, count, key, child) =>
        var i := FindByte(key, count, b);
        FoundInList(key, child, count, m, b, i);
        c := if i < count then child[i] else None;
      case Node16(_, count, key, child) =>
        var i := FindByte(key, count, Flip(b));
        FoundFlipped(key, child, count, m, b, i);
        c := if i < count then child[i] else None;
      case Node48(_, count, index, child) =>
        c := if index[b] != 48 then child[index[b]] else None;
      case Node256(_, count, child) =>
        c := child[b];
    }
  }

  // ---------------------------------------------------------------- the first and the last child

  /** `minimum` goes on at the child with the least byte. */
  method FirstChild<T(!new)>(n: Node<T>, ghost m: map<Byte, T>) returns (c: T, ghost b: Byte)
    requires Shows(n, m) && |m| > 0
    ensures b in m && c == m[b] && forall x: Byte :: x in m ==> b <= x
  {
    ghost var some := SomeByte(m);
    match n {
      case Node4(_, count, key, child) =>
        c, b := child[0].value, key[0];
        FirstInList(key, child, count, m);
      case Node16(_, count, key, child) =>
        c, b := child[0].value, Flip(key[0]);
        FirstInList(Flipped(key), child, count, m);
      case Node48(_, count, index, child) =>
        var pos := 0;
        while index[pos] == 48
          invariant 0 <= pos <= some && forall x: Byte :: x < pos ==> x !in m
          decreases some - pos
        {
          pos := pos + 1;
        }
        c, b := child[index[pos]].value, pos;
      case Node256(_, count, child) =>
        var pos := 0;
        while child[pos].None?
          invariant 0 <= pos <= some && forall x: Byte :: x < pos ==> x !in m
          decreases some - pos
        {
          pos := pos + 1;
        }
        c, b := child[pos].value, pos;
    }
  }

  lemma SomeByte<T(!new)>(m: map<Byte, T>) returns (b: Byte)
    requires |m| > 0
    ensures b in m
  {
    b :| b in m;
  }

  lemma FirstInList<T(!new)>(key: seq<Byte>, child: seq<Option<T>>, count: nat, m: map<Byte, T>)
    requires ListShows(key, child, count, m) && count > 0
    ensures forall x: Byte :: x in m ==> key[0] <= x <= key[count - 1]
  {
    forall x: Byte | x in m ensures key[0] <= x <= key[count - 1] {
      assert HasByte(key, count, x);
    }
  }

  /** `maximum` goes on at the child with the greatest byte. */
  method LastChild<T(!new)>(n: Node<T>, ghost m: map<Byte, T>) returns (c: T, ghost b: Byte)
    requires Shows(n, m) && |m| > 0
    ensures b in m && c == m[b] && forall x: Byte :: x in m ==> x <= b
  {
    ghost var some := SomeByte(m);
    match n {
      case Node4(_, count, key, child) =>
        c, b := child[count - 1].value, key[count - 1];
        FirstInList(key, child, count, m);
      case Node16(_, count, key, child) =>
        c, b := child[count - 1].value, Flip(key[count - 1]);
        FirstInList(Flipped(key), child, count, m);
      case Node48(_, count, index, child) =>
        var pos := 255;
        while index[pos] == 48
          invariant some <= pos <= 255 && forall x: Byte :: pos < x ==> x !in m
          decreases pos
        {
          pos := pos - 1;
        }
        c, b := child[index[pos]].value, pos;
      case Node256(_, count, child) =>
        var pos := 255;
        while child[pos].None?
          invariant some <= pos <= 255 && forall x: Byte :: pos < x ==> x !in m
          decreases pos
        {
          pos := pos - 1;
        }
        c, b := child[pos].value, pos;
    }
  }

  // ---------------------------------------------------------------- adding a child

  /** The same compressed path, as far as it is stored. */
  ghost predicate SameHeader(h: Header, h': Header) {
    && |h.prefix| == 9 == |h'.prefix| && h'.length == h.length
    && forall i :: 0 <= i < 9 && i < h.length ==> h'.prefix[i] == h.prefix[i]
  }

  ghost predicate HeaderOk(h: Header) {
    |h.prefix| == 9
  }

  /** The new node shows one child more. */
  ghost predicate Added<T(!new)>(n: Node<T>, r: Node<T>, m: map<Byte, T>, b: Byte, c: T) {
    Shows(r, m[b := c]) && SameHeader(n.header, r.header)
  }

  ghost predicate Erased<T(!new)>(n: Node<T>, r: Node<T>, m: map<Byte, T>, b: Byte) {
    Shows(r, m - {b}) && SameHeader(n.header, r.header)
  }

  method FreshHeader() returns (h: Header)
    ensures HeaderOk(h)
  {
    var prefix := new Byte[9];
    h := Header(0, prefix[..]);
  }

  /** `copyPrefix`: the length, and the part of the path that is stored. */
  method CopyPrefix(src: Header) returns (dst: Header)
    requires HeaderOk(src)
    ensures SameHeader(src, dst)
  {
    dst := FreshHeader();
    var k := if src.length < 9 then src.length else 9;
    dst := Header(src.length, src.prefix[..k] + dst.prefix[k..]);
  }

  function Nones<T>(k: nat): (s: seq<Option<T>>)
    ensures |s| == k && forall i :: 0 <= i < k ==> s[i] == None
  {
    seq(k, _ => None)
  }

  method InsertNode4<T(!new)>(n: Node<T>, b: Byte, c: T, ghost m: map<Byte, T>) returns (r: Node<T>)
    requires n.Node4? && Shows(n, m) && HeaderOk(n.header) && b !in m
    ensures Added(n, r, m, b, c) && (if |m| < 4 then r.Node4? else r.Node16?)
  {
    if n.count < 4 {
      var pos := 0;
      while pos < n.count && n.key[pos] < b
        invariant pos <= n.count && forall i :: 0 <= i < pos ==> n.key[i] < b
      {
        pos := pos + 1;
      }
      if pos < n.count { assert n.key[pos] != b; }
      ListInserted(n.key, n.child, n.count, m, pos, b, c);
      r := Node4(n.header, n.count + 1, Inserted(n.key, n.count, pos, b), Inserted(n.child, n.count, pos, Some(c)));
    } else {
      var g := Grow4(n, m);
      r := InsertNode16(g, b, c, m);
      HeaderTwice(n.header, g.header, r.header);
    }
  }

  lemma HeaderTwice(h: Header, h': Header, h'': Header)
    requires SameHeader(h, h') && SameHeader(h', h'')
    ensures SameHeader(h, h'')
  {
  }

  method Grow4<T(!new)>(n: Node<T>, ghost m: map<Byte, T>) returns (r: Node<T>)
    requires n.Node4? && Shows(n, m) && HeaderOk(n.header) && n.count == 4
    ensures r.Node16? && Shows(r, m) && SameHeader(n.header, r.header) && r.count == 4
  {
    var header := CopyPrefix(n.header);
    var key: seq<Byte> := seq(16, _ => 0);
    var i := 0;
    while i < 4
      invariant i <= 4 && |key| == 16 && forall j :: 0 <= j < i ==> key[j] == Flip(n.key[j])
    {
      key := key[i := Flip(n.key[i])];
      i := i + 1;
    }
    var child := n.child + Nones(12);
    forall j | 0 <= j < 4 ensures Flipped(key)[j] == n.key[j] { FlipLaws(n.key[j], 0); }
    ListSame(n.key, n.child, Flipped(key), child, 4, m);
    r := Node16(header, n.count, key, child);
  }

  method InsertNode16<T(!new)>(n: Node<T>, b: Byte, c: T, ghost m: map<Byte, T>) returns (r: Node<T>)
    requires n.Node16? && Shows(n, m) && HeaderOk(n.header) && b !in m
    ensures Added(n, r, m, b, c) && (if |m| < 16 then r.Node16? else r.Node48?)
  {
    if n.count < 16 {
      var key, child := PutByte(n.key, n.child, n.count, b, c, m);
      r := Node16(n.header, n.count + 1, key, child);
    } else {
      var g := Grow16(n, m);
      r := InsertNode48(g, b, c, m);
      HeaderTwice(n.header, g.header, r.header);
    }
    hide ListShows, IndexShows, Flipped;
  }

  /** Both arrays open at the place for the byte. */
  method PutByte<T(!new)>(key: seq<Byte>, child: seq<Option<T>>, count: nat, b: Byte, c: T, ghost m: map<Byte, T>)
      returns (key': seq<Byte>, child': seq<Option<T>>)
    requires ListShows(Flipped(key), child, count, m) && b !in m && count < |key|
    ensures |key'| == |key| && ListShows(Flipped(key'), child', count + 1, m[b := c])
  {
    var pos := PlaceFor(key, child, count, b, m);
    key', child' := Inserted(key, count, pos, Flip(b)), Inserted(child, count, pos, Some(c));
    FlippedListInserted(key, child, count, m, pos, b, c);
  }

  /** The first key byte above b, which the signed comparison of flipped bytes finds. */
  method PlaceFor<T(!new)>(key: seq<Byte>, child: seq<Option<T>>, count: nat, b: Byte, ghost m: map<Byte, T>)
      returns (pos: nat)
    requires ListShows(Flipped(key), child, count, m) && b !in m
    ensures pos <= count && forall i :: 0 <= i < pos ==> Flipped(key)[i] < b
    ensures pos < count ==> b < Flipped(key)[pos]
  {
    pos := 0;
    while pos < count && !(Signed(Flip(b)) < Signed(key[pos]))
      invariant pos <= count && forall i :: 0 <= i < pos ==> Flipped(key)[i] < b
    {
      UnflipLess(b, key[pos]);
      assert Flipped(key)[pos] in m;
      pos := pos + 1;
    }
    if pos < count { UnflipLess(b, key[pos]); }
  }

  lemma FlippedListInserted<T(!new)>(key: seq<Byte>, child: seq<Option<T>>, count: nat, m: map<Byte, T>, pos: nat,
                              b: Byte, c: T)
    requires ListShows(Flipped(key), child, count, m) && pos <= count < |key| && b !in m
    requires forall i :: 0 <= i < pos ==> Flipped(key)[i] < b
    requires pos < count ==> b < Flipped(key)[pos]
    ensures ListShows(Flipped(Inserted(key, count, pos, Flip(b))), Inserted(child, count, pos, Some(c)), count + 1,
                      m[b := c])
  {
    ListInserted(Flipped(key), child, count, m, pos, b, c);
    FlippedInserted(key, count, pos, b);
    var key', child' := Inserted(key, count, pos, Flip(b)), Inserted(child, count, pos, Some(c));
    ListSame(Inserted(Flipped(key), count, pos, b), child', Flipped(key'), child', count + 1, m[b := c]);
  }

  /** The signed comparison of flipped bytes is the unsigned comparison of bytes. */
  lemma UnflipLess(b: Byte, k: Byte)
    ensures Signed(Flip(b)) < Signed(k) <==> b < Flip(k)
  {
  }

  method Grow16<T(!new)>(n: Node<T>, ghost m: map<Byte, T>) returns (r: Node<T>)
    requires n.Node16? && Shows(n, m) && HeaderOk(n.header) && n.count == 16
    ensures r.Node48? && Shows(r, m) && SameHeader(n.header, r.header)
  {
    var header := CopyPrefix(n.header);
    var index := IndexKeys(n.key);
    var child := n.child + Nones(32);
    ghost var key := Flipped(n.key);
    forall b: Byte ensures b in m <==> index[b] != 48 {
      if b in m { assert HasByte(key, 16, b); }
    }
    forall i | 0 <= i < 48 && child[i].Some? ensures HasPlace(index, i) {
      assert index[key[i]] == i;
    }
    r := Node48(header, n.count, index, child);
  }

  /** The place of each key byte. */
  method IndexKeys(flipped: seq<Byte>) returns (index: seq<Byte>)
    requires |flipped| == 16 && forall i, j :: 0 <= i < j < 16 ==> Flip(flipped[i]) != Flip(flipped[j])
    ensures |index| == 256
    ensures forall i :: 0 <= i < 16 ==> index[Flip(flipped[i])] == i
    ensures forall b: Byte :: index[b] == 48 || (index[b] < 16 && Flip(flipped[index[b]]) == b)
  {
    index := seq(256, _ => 48);
    var i := 0;
    while i < 16
      invariant i <= 16 && |index| == 256
      invariant forall j :: 0 <= j < i ==> index[Flip(flipped[j])] == j
      invariant forall b: Byte :: index[b] == 48 || (index[b] < i && Flip(flipped[index[b]]) == b)
    {
      index := index[Flip(flipped[i]) := i];
      i := i + 1;
    }
  }

  method InsertNode48<T(!new)>(n: Node<T>, b: Byte, c: T, ghost m: map<Byte, T>) returns (r: Node<T>)
    requires n.Node48? && Shows(n, m) && HeaderOk(n.header) && b !in m
    ensures Added(n, r, m, b, c) && (if |m| < 48 then r.Node48? else r.Node256?)
  {
    if n.count < 48 {
      var pos := n.count;
      if n.child[pos].Some? {
        ghost var free := FreePlace(n.childIndex, n.child, n.count, m);
        pos := 0;
        while n.child[pos].Some?
          invariant pos <= free
          decreases free - pos
        {
          pos := pos + 1;
        }
      }
      PlaceTaken(n.childIndex, n.child, n.count, m, pos, b, c);
      r := Node48(n.header, n.count + 1, n.childIndex[b := pos], n.child[pos := Some(c)]);
    } else {
      var g := Grow48(n, m);
      r := InsertNode256(g, b, c, m);
      HeaderTwice(n.header, g.header, r.header);
    }
  }

  lemma PlaceTaken<T(!new)>(index: seq<Byte>, child: seq<Option<T>>, count: nat, m: map<Byte, T>, pos: nat, b: Byte,
                     c: T)
    requires IndexShows(index, child, count, m) && pos < 48 && child[pos].None? && b !in m
    ensures IndexShows(index[b := pos], child[pos := Some(c)], count + 1, m[b := c])
  {
    var index', child', m' := index[b := pos], child[pos := Some(c)], m[b := c];
    OneMore(m, b, c);
    forall x: Byte | x in m ensures index[x] != pos {}
    forall i | 0 <= i < 48 && child'[i].Some? ensures HasPlace(index', i) {
      if i == pos {
        assert index'[b] == i;
      } else {
        assert HasPlace(index, i);
        var x: Byte :| index[x] == i;
        assert index'[x] == i;
      }
    }
  }

  /** Fewer than 48 children leave a place free. */
  lemma FreePlace<T(!new)>(index: seq<Byte>, child: seq<Option<T>>, count: nat, m: map<Byte, T>) returns (free: nat)
    requires IndexShows(index, child, count, m) && count < 48
    ensures free < 48 && child[free].None?
  {
    if forall i :: 0 <= i < 48 ==> child[i].Some? {
      var s := Takers(index, child, count, m, 48);
      SubsetSize(s, m.Keys);
      assert false;
    }
    free :| 0 <= free < 48 && child[free].None?;
  }

  lemma {:induction false} Takers<T(!new)>(index: seq<Byte>, child: seq<Option<T>>, count: nat, m: map<Byte, T>, t: nat)
      returns (s: set<Byte>)
    requires IndexShows(index, child, count, m) && t <= 48 && forall i :: 0 <= i < t ==> child[i].Some?
    ensures |s| == t && s <= m.Keys && forall b: Byte :: b in s ==> index[b] < t
  {
    if t == 0 {
      s := {};
    } else {
      s := Takers(index, child, count, m, t - 1);
      assert HasPlace(index, t - 1);
      var b: Byte :| index[b] == t - 1;
      assert b !in s;
      s := s + {b};
    }
  }

  method Grow48<T(!new)>(n: Node<T>, ghost m: map<Byte, T>) returns (r: Node<T>)
    requires n.Node48? && Shows(n, m) && HeaderOk(n.header)
    ensures r.Node256? && Shows(r, m) && SameHeader(n.header, r.header)
  {
    var child: seq<Option<T>> := Nones(256);
    var i := 0;
    while i < 256
      invariant 0 <= i <= 256 && |child| == 256
      invariant forall b: Byte :: child[b] == if b in m && b < i then Some(m[b]) else None
    {
      if n.childIndex[i] != 48 {
        child := child[i := n.child[n.childIndex[i]]];
      }
      i := i + 1;
    }
    var header := CopyPrefix(n.header);
    r := Node256(header, n.count, child);
  }

  method InsertNode256<T(!new)>(n: Node<T>, b: Byte, c: T, ghost m: map<Byte, T>) returns (r: Node<T>)
    requires n.Node256? && Shows(n, m) && HeaderOk(n.header) && b !in m
    ensures Added(n, r, m, b, c) && r.Node256?
  {
    OneMore(m, b, c);
    r := Node256(n.header, n.count + 1, n.child[b := Some(c)]);
  }

  /** Add a child in the layout the node has, or the next one. */
  method InsertNode<T(!new)>(n: Node<T>, b: Byte, c: T, ghost m: map<Byte, T>) returns (r: Node<T>)
    requires Shows(n, m) && HeaderOk(n.header) && b !in m && RightSize(n)
    ensures Added(n, r, m, b, c) && RightSize(r)
  {
    OneMore(m, b, c);
    A.AtMost256(m[b := c].Keys);
    match n {
      case Node4(_, _, _, _) => r := InsertNode4(n, b, c, m);
      case Node16(_, _, _, _) => r := InsertNode16(n, b, c, m);
      case Node48(_, _, _, _) => r := InsertNode48(n, b, c, m);
      case Node256(_, _, _) => r := InsertNode256(n, b, c, m);
    }
  }

  /** Exchanging a child where it is. */
  method ReplaceChild<T(!new)>(n: Node<T>, b: Byte, c: T, ghost m: map<Byte, T>) returns (r: Node<T>)
    requires Shows(n, m) && HeaderOk(n.header) && b in m
    ensures Added(n, r, m, b, c) && (RightSize(n) ==> RightSize(r))
  {
    match n {
      case Node4(h, count, key, child) =>
        var i := FindByte(key, count, b);
        FoundInList(key, child, count, m, b, i);
        ListReplaced(key, child, count, m, i, c);
        r := Node4(h, count, key, child[i := Some(c)]);
      case Node16(h, count, key, child) =>
        var i := FindByte(key, count, Flip(b));
        FoundFlipped(key, child, count, m, b, i);
        ListReplaced(Flipped(key), child, count, m, i, c);
        r := Node16(h, count, key, child[i := Some(c)]);
      case Node48(h, count, index, child) =>
        IndexReplaced(index, child, count, m, b, c);
        r := Node48(h, count, index, child[index[b] := Some(c)]);
      case Node256(h, count, child) =>
        SameKeys(m, b, c);
        r := Node256(h, count, child[b := Some(c)]);
    }
  }

  lemma IndexReplaced<T(!new)>(index: seq<Byte>, child: seq<Option<T>>, count: nat, m: map<Byte, T>, b: Byte, c: T)
    requires IndexShows(index, child, count, m) && b in m
    ensures IndexShows(index, child[index[b] := Some(c)], count, m[b := c])
  {
    SameKeys(m, b, c);
    assert HasPlace(index, index[b]);
  }

  lemma FoundFlipped<T(!new)>(key: seq<Byte>, child: seq<Option<T>>, count: nat, m: map<Byte, T>, b: Byte, i: nat)
    requires ListShows(Flipped(key), child, count, m) && i <= count && (i < count ==> key[i] == Flip(b))
    requires forall j :: 0 <= j < i ==> key[j] != Flip(b)
    ensures b in m <==> i < count
    ensures i < count ==> child[i] == Some(m[b]) && Flipped(key)[i] == b
  {
    FlipLaws(b, b);
    forall j | 0 <= j < i ensures Flipped(key)[j] != b { FlipLaws(key[j], b); }
    if i < count { FlipLaws(key[i], b); }
    FoundInList(Flipped(key), child, count, m, b, i);
  }

  lemma SameKeys<T>(m: map<Byte, T>, b: Byte, c: T)
    requires b in m
    ensures m[b := c].Keys == m.Keys && |m[b := c]| == |m|
  {
    assert |m[b := c].Keys| == |m.Keys|;
  }

  lemma ListReplaced<T(!new)>(key: seq<Byte>, child: seq<Option<T>>, count: nat, m: map<Byte, T>, i: nat, c: T)
    requires ListShows(key, child, count, m) && i < count
    ensures ListShows(key, child[i := Some(c)], count, m[key[i] := c])
  {
    SameKeys(m, key[i], c);
  }

  // ---------------------------------------------------------------- erasing a child

  method EraseNode4<T(!new)>(n: Node<T>, b: Byte, ghost m: map<Byte, T>) returns (r: Node<T>)
    requires n.Node4? && Shows(n, m) && HeaderOk(n.header) && b in m
    ensures Erased(n, r, m, b) && r.Node4? && r.count == n.count - 1 && r.header == n.header
  {
    var pos := FindByte(n.key, n.count, b);
    FoundInList(n.key, n.child, n.count, m, b, pos);
    RemovedCloser(n.key, n.count, pos);
    RemovedCloser(n.child, n.count, pos);
    ListRemoved(n.key, n.child, Removed(n.key, n.count, pos), Removed(n.child, n.count, pos), n.count, m, pos);
    r := Node4(n.header, n.count - 1, Removed(n.key, n.count, pos), Removed(n.child, n.count, pos));
  }

  method EraseNode16<T(!new)>(n: Node<T>, b: Byte, ghost m: map<Byte, T>) returns (r: Node<T>)
    requires n.Node16? && Shows(n, m) && HeaderOk(n.header) && b in m && 4 <= n.count <= 16
    ensures Erased(n, r, m, b) && RightSize(r)
  {
    var key, child := DropByte(n.key, n.child, n.count, b, m);
    if n.count == 4 {
      r := Shrink16(n.header, key, child, m - {b});
    } else {
      r := Keep16(n.header, n.count - 1, key, child, m - {b});
    }
    hide Shows, SameHeader;
  }

  method Keep16<T(!new)>(h: Header, count: nat, key: seq<Byte>, child: seq<Option<T>>, ghost m: map<Byte, T>)
      returns (r: Node<T>)
    requires HeaderOk(h) && |key| == 16 && ListShows(Flipped(key), child, count, m) && 4 <= count <= 16
    ensures Shows(r, m) && SameHeader(h, r.header) && RightSize(r)
  {
    r := Node16(h, count, key, child);
  }

  method Shrink16<T(!new)>(h: Header, key: seq<Byte>, child: seq<Option<T>>, ghost m: map<Byte, T>)
      returns (r: Node<T>)
    requires HeaderOk(h) && |key| == 16 && ListShows(Flipped(key), child, 3, m)
    ensures Shows(r, m) && SameHeader(h, r.header) && RightSize(r)
  {
    var header := CopyPrefix(h);
    var raw: seq<Byte> := [Flip(key[0]), Flip(key[1]), Flip(key[2]), Flip(key[3])];
    FirstFour(key, child, raw, m);
    r := Node4(header, 3, raw, child[..4]);
  }

  /** Both arrays close up over the place of the byte. */
  method DropByte<T(!new)>(key: seq<Byte>, child: seq<Option<T>>, count: nat, b: Byte, ghost m: map<Byte, T>)
      returns (key': seq<Byte>, child': seq<Option<T>>)
    requires ListShows(Flipped(key), child, count, m) && b in m
    ensures count > 0 && |key'| == |key| && ListShows(Flipped(key'), child', count - 1, m - {b})
  {
    var pos := FindByte(key, count, Flip(b));
    FoundFlipped(key, child, count, m, b, pos);
    key', child' := Removed(key, count, pos), Removed(child, count, pos);
    FlippedRemoved(key, count, pos);
    RemovedCloser(child, count, pos);
    hide *;
    ListRemoved(Flipped(key), child, Flipped(key'), child', count, m, pos);
  }

  lemma FirstFour<T(!new)>(key: seq<Byte>, child: seq<Option<T>>, raw: seq<Byte>, m: map<Byte, T>)
    requires |key| == 16 && ListShows(Flipped(key), child, 3, m)
    requires |raw| == 4 && forall i :: 0 <= i < 4 ==> raw[i] == Flip(key[i])
    ensures |child| == 16 && ListShows(raw, child[..4], 3, m)
  {
    ListSame(Flipped(key), child, raw, child[..4], 3, m);
  }

  method EraseNode48<T(!new)>(n: Node<T>, b: Byte, ghost m: map<Byte, T>) returns (r: Node<T>)
    requires n.Node48? && Shows(n, m) && HeaderOk(n.header) && b in m && 13 <= n.count <= 48
    ensures Erased(n, r, m, b) && RightSize(r)
  {
    var child := n.child[n.childIndex[b] := None];
    var index := n.childIndex[b := 48];
    var count := n.count - 1;
    PlaceFreed(n.childIndex, n.child, n.count, m, b);
    if count == 12 {
      var header := CopyPrefix(n.header);
      var key, list := CollectPlaces(index, child, m - {b});
      r := Node16(header, count, key, list);
    } else {
      r := Node48(n.header, count, index, child);
    }
  }

  /** How many children have a byte below i. */
  ghost function CountBelow<T>(m: map<Byte, T>, i: nat): nat {
    |set b: Byte | b in m && b < i|
  }

  lemma CountUp<T>(m: map<Byte, T>, i: Byte)
    ensures CountBelow(m, 0) == 0 && CountBelow(m, 256) == |m|
    ensures CountBelow(m, i + 1) == CountBelow(m, i) + if i in m then 1 else 0
    ensures CountBelow(m, i + 1) <= |m|
  {
    var none := set b: Byte | b in m && b < 0;
    assert none == {};
    var all := set b: Byte | b in m && b < 256;
    assert all == m.Keys;
    var s, s' := set b: Byte | b in m && b < i, set b: Byte | b in m && b < i + 1;
    assert s' == if i in m then s + {i} else s;
    SubsetSize(s', m.Keys);
  }

  /** The children of a Node48 by ascending byte. */
  method CollectPlaces<T(!new)>(index: seq<Byte>, child: seq<Option<T>>, ghost m: map<Byte, T>)
      returns (key: seq<Byte>, list: seq<Option<T>>)
    requires IndexShows(index, child, 12, m)
    ensures |key| == 16 && ListShows(Flipped(key), list, 12, m)
  {
    key, list := seq(16, _ => 0), Nones(16);
    var k := 0;
    PlaceOf(index, child, 12, m);
    CountUp(m, 0);
    for i := 0 to 256
      invariant |key| == 16 == |list| && k == CountBelow(m, i) <= 12 && Collected(key, list, k, m, i)
    {
      hide IndexShows, Collected, CountBelow;
      CountUp(m, i);
      if index[i] != 48 {
        CollectedMore(key, list, k, m, i);
        key := key[k := Flip(i)];
        list := list[k := child[index[i]]];
        k := k + 1;
      } else {
        CollectedSkip(key, list, k, m, i);
      }
    }
    CountUp(m, 255);
    CollectedAll(key, list, k, m);
  }

  lemma PlaceOf<T(!new)>(index: seq<Byte>, child: seq<Option<T>>, count: nat, m: map<Byte, T>)
    requires IndexShows(index, child, count, m)
    ensures |index| == 256 && |child| == 48 && |m| == count
    ensures forall b: Byte :: index[b] != 48 <==> b in m
    ensures forall b: Byte :: b in m ==> index[b] < 48 && child[index[b]] == Some(m[b])
  {
  }

  lemma PlaceFreed<T(!new)>(index: seq<Byte>, child: seq<Option<T>>, count: nat, m: map<Byte, T>, b: Byte)
    requires IndexShows(index, child, count, m) && b in m
    ensures IndexShows(index[b := 48], child[index[b] := None], count - 1, m - {b})
  {
    OneLess(m, b);
    OthersStay(index, child, count, m, b);
    OtherPlaces(index, child, count, m, b);
    OtherKeys(m, b);
    hide HasPlace;
  }

  lemma OtherKeys<T(!new)>(m: map<Byte, T>, b: Byte)
    ensures forall x: Byte :: x in m - {b} <==> x in m && x != b
    ensures forall x: Byte :: x in m - {b} ==> (m - {b})[x] == m[x]
  {
  }

  lemma OtherPlaces<T(!new)>(index: seq<Byte>, child: seq<Option<T>>, count: nat, m: map<Byte, T>, b: Byte)
    requires IndexShows(index, child, count, m) && b in m
    ensures var child' := child[index[b] := None];
      forall i :: 0 <= i < 48 && child'[i].Some? ==> HasPlace(index[b := 48], i)
  {
    var index', child' := index[b := 48], child[index[b] := None];
    forall i | 0 <= i < 48 && child'[i].Some? ensures HasPlace(index', i) {
      assert HasPlace(index, i);
      var x: Byte :| index[x] == i;
      assert index'[x] == i;
    }
  }

  lemma OthersStay<T(!new)>(index: seq<Byte>, child: seq<Option<T>>, count: nat, m: map<Byte, T>, b: Byte)
    requires IndexShows(index, child, count, m) && b in m
    ensures var index', child' := index[b := 48], child[index[b] := None];
      forall x: Byte :: x in m && x != b ==> index'[x] == index[x] < 48 && child'[index[x]] == Some(m[x])
  {
    forall x: Byte | x in m && x != b ensures index[x] != index[b] {}
  }

  /** The children with a byte below i stand in the list by ascending byte. */
  ghost predicate Collected<T(!new)>(key: seq<Byte>, child: seq<Option<T>>, k: nat, m: map<Byte, T>, i: int) {
    && |key| == |child| == 16 && k <= 16
    && (forall x, y :: 0 <= x < y < k ==> Flip(key[x]) < Flip(key[y]))
    && (forall x :: 0 <= x < k ==> Flip(key[x]) in m && Flip(key[x]) < i && child[x] == Some(m[Flip(key[x])]))
    && (forall b: Byte :: b in m && b < i ==> HasByte(Flipped(key), k, b))
  }

  lemma CollectedMore<T(!new)>(key: seq<Byte>, child: seq<Option<T>>, k: nat, m: map<Byte, T>, i: Byte)
    requires Collected(key, child, k, m, i) && k < 16 && i in m
    ensures Collected(key[k := Flip(i)], child[k := Some(m[i])], k + 1, m, i + 1)
  {
    FlipLaws(i, i);
    var key' := key[k := Flip(i)];
    forall b: Byte | b in m && b < i + 1 ensures HasByte(Flipped(key'), k + 1, b) {
      if b < i {
        assert HasByte(Flipped(key), k, b);
        var x :| 0 <= x < k && Flipped(key)[x] == b;
        assert Flipped(key')[x] == b;
      } else {
        assert Flipped(key')[k] == b;
      }
    }
  }

  lemma CollectedSkip<T(!new)>(key: seq<Byte>, child: seq<Option<T>>, k: nat, m: map<Byte, T>, i: Byte)
    requires Collected(key, child, k, m, i) && i !in m
    ensures Collected(key, child, k, m, i + 1)
  {
  }

  lemma CollectedAll<T(!new)>(key: seq<Byte>, child: seq<Option<T>>, k: nat, m: map<Byte, T>)
    requires Collected(key, child, k, m, 256) && k == |m|
    ensures ListShows(Flipped(key), child, k, m)
  {
  }

  method EraseNode256<T(!new)>(n: Node<T>, b: Byte, ghost m: map<Byte, T>) returns (r: Node<T>)
    requires n.Node256? && Shows(n, m) && HeaderOk(n.header) && b in m && 38 <= n.count <= 256
    ensures Erased(n, r, m, b) && RightSize(r)
  {
    OneLess(m, b);
    var child, count := n.child[b := None], n.count - 1;
    if count == 37 {
      var header := CopyPrefix(n.header);
      var index, list := GivePlaces(child, m - {b});
      r := Node48(header, count, index, list);
    } else {
      r := Node256(n.header, count, child);
    }
  }

  /** The children of a Node256 get the first places, by ascending byte. */
  method GivePlaces<T(!new)>(child: seq<Option<T>>, ghost m: map<Byte, T>)
      returns (index: seq<Byte>, list: seq<Option<T>>)
    requires ArrayShows(child, 37, m)
    ensures IndexShows(index, list, 37, m)
  {
    index, list := seq(256, _ => 48), Nones(48);
    var k := 0;
    CountUp(m, 0);
    for i := 0 to 256
      invariant |index| == 256 && |list| == 48 && k == CountBelow(m, i) <= 37 && Placed(index, list, k, m, i)
    {
      hide Placed, CountBelow;
      CountUp(m, i);
      if child[i].Some? {
        PlacedMore(index, list, k, m, i);
        index := index[i := k];
        list := list[k := child[i]];
        k := k + 1;
      } else {
        PlacedSkip(index, list, k, m, i);
      }
    }
    CountUp(m, 255);
    PlacedAll(index, list, k, m);
  }

  /** The children with a byte below i have the first k places. */
  ghost predicate Placed<T(!new)>(index: seq<Byte>, child: seq<Option<T>>, k: nat, m: map<Byte, T>, i: int) {
    && |index| == 256 && |child| == 48 && k <= 48
    && (forall b: Byte :: if b in m && b < i then index[b] < k else index[b] == 48)
    && (forall b: Byte :: b in m && b < i ==> index[b] < 48 && child[index[b]] == Some(m[b]))
    && (forall b: Byte, c: Byte :: b in m && c in m && b < i && c < i && index[b] == index[c] ==> b == c)
    && (forall j :: k <= j < 48 ==> child[j].None?)
    && (forall j :: 0 <= j < k ==> HasPlace(index, j))
  }

  lemma PlacedMore<T(!new)>(index: seq<Byte>, child: seq<Option<T>>, k: nat, m: map<Byte, T>, b: Byte)
    requires Placed(index, child, k, m, b) && k < 48 && b in m
    ensures Placed(index[b := k], child[k := Some(m[b])], k + 1, m, b + 1)
  {
    var index' := index[b := k];
    forall j | 0 <= j < k + 1 ensures HasPlace(index', j) {
      if j < k {
        assert HasPlace(index, j);
        var x: Byte :| index[x] == j;
        assert index'[x] == j;
      } else {
        assert index'[b] == j;
      }
    }
  }

  lemma PlacedSkip<T(!new)>(index: seq<Byte>, child: seq<Option<T>>, k: nat, m: map<Byte, T>, b: Byte)
    requires Placed(index, child, k, m, b) && b !in m
    ensures Placed(index, child, k, m, b + 1)
  {
  }

  lemma PlacedAll<T(!new)>(index: seq<Byte>, child: seq<Option<T>>, k: nat, m: map<Byte, T>)
    requires Placed(index, child, k, m, 256) && k == |m|
    ensures IndexShows(index, child, k, m)
  {
  }

  /** Erase a child in the layout the node has, or change to the smaller one; a Node4 may be left with one. */
  method EraseNode<T(!new)>(n: Node<T>, b: Byte, ghost m: map<Byte, T>) returns (r: Node<T>)
    requires Shows(n, m) && HeaderOk(n.header) && b in m && RightSize(n)
    ensures Erased(n, r, m, b)
    ensures RightSize(r) || (r.Node4? && r.count == 1)
  {
    match n {
      case Node4(_, _, _, _) => r := EraseNode4(n, b, m);
      case Node16(_, _, _, _) => r := EraseNode16(n, b, m);
      case Node48(_, _, _, _) => r := EraseNode48(n, b, m);
      case Node256(_, _, _) => r := EraseNode256(n, b, m);
    }
  }
}
