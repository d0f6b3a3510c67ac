/** The ordered adaptive radix tree over keys of one length: leaves are tuple identifiers whose keys are
    loaded on demand. */
module OrdTree {
  import opened ArtShape
  import opened OrdNode
  import A = ArtNode

  /** A tagged pointer: a pseudo-leaf, or an inner node. */
  datatype Ref = LeafRef(tid: nat) | NodeRef(node: Node<Ref>)

  type Loader = nat -> Key

  // ---------------------------------------------------------------- the tree that a pointer stands for

  ghost predicate HeaderHolds(h: Header, prefix: seq<Byte>) {
    && |h.prefix| == 9 && h.length == |prefix|
    && forall i :: 0 <= i < 9 && i < |prefix| ==> h.prefix[i] == prefix[i]
  }

  ghost predicate Stands(load: Loader, c: Ref, t: Tree)
    decreases t
  {
    match t
    case Leaf(_, key, value) => c == LeafRef(value) && key == load(value)
    case Inner(_, prefix, kids) =>
      && c.NodeRef? && HeaderHolds(c.node.header, prefix) && RightSize(c.node)
      && exists m: map<Byte, Ref> :: Shows(c.node, m) && m.Keys == kids.Keys
                                     && forall b: Byte :: b in kids ==> Stands(load, m[b], kids[b])
  }

  /** The children as the node shows them, and as the tree has them. */
  ghost predicate KidsStand(load: Loader, n: Node<Ref>, m: map<Byte, Ref>, kids: map<Byte, Tree>) {
    Shows(n, m) && m.Keys == kids.Keys && forall b: Byte :: b in kids ==> Stands(load, m[b], kids[b])
  }

  lemma StandsParts(load: Loader, c: Ref, t: Tree) returns (m: map<Byte, Ref>)
    requires Stands(load, c, t) && t.Inner?
    ensures c.NodeRef? && HeaderHolds(c.node.header, t.prefix) && RightSize(c.node) && HeaderOk(c.node.header)
    ensures KidsStand(load, c.node, m, t.kids) && Shows(c.node, m) && m.Keys == t.kids.Keys && |m| >= 2
    ensures forall b: Byte :: b in t.kids ==> Stands(load, m[b], t.kids[b])
  {
    m :| Shows(c.node, m) && m.Keys == t.kids.Keys && forall b: Byte :: b in t.kids ==> Stands(load, m[b], t.kids[b]);
    ShowsSize(c.node, m);
  }

  lemma ShowsSize(n: Node<Ref>, m: map<Byte, Ref>)
    requires Shows(n, m)
    ensures n.count == |m|
  {
  }

  lemma StandsIs(load: Loader, n: Node<Ref>, m: map<Byte, Ref>, t: Tree)
    requires t.Inner? && HeaderHolds(n.header, t.prefix) && RightSize(n) && KidsStand(load, n, m, t.kids)
    ensures Stands(load, NodeRef(n), t)
  {
  }

  lemma LeafStands(load: Loader, c: Ref, t: Tree)
    ensures t.Leaf? ==> (Stands(load, c, t) <==> c == LeafRef(t.value) && t.key == load(t.value))
    ensures Stands(load, c, t) ==> (c.LeafRef? <==> t.Leaf?)
  {
  }

  ghost predicate Lengths(es: set<Entry>, len: nat) {
    forall e :: e in es ==> |e.0| == len
  }

  /** A node ends before its keys do. */
  lemma PathInside(t: Tree, path: Key, len: nat)
    requires t.Inner? && Shaped(t, path) && Lengths(Entries(t), len)
    ensures |path| + |t.prefix| < len
  {
    var e := NotEmpty(t, path);
    KeysFollowPath(t, path, e);
  }

  lemma KidLengths(t: Tree, b: Byte, len: nat)
    requires t.Inner? && b in t.kids && Lengths(Entries(t), len)
    ensures Lengths(Entries(t.kids[b]), len)
  {
    KidSubset(t, b);
  }

  /** The pointer stands for a tree below the path, of keys of one length. */
  ghost predicate Below(load: Loader, c: Ref, t: Tree, path: Key, len: nat) {
    Stands(load, c, t) && Shaped(t, path) && Lengths(Entries(t), len)
  }

  lemma BelowLeaf(load: Loader, c: Ref, t: Tree, path: Key, len: nat)
    requires Below(load, c, t, path, len)
    ensures c.LeafRef? <==> t.Leaf?
    ensures t.Leaf? ==> c == LeafRef(t.value) && t.key == load(t.value) && |t.key| == len && path <= t.key
    ensures t.Leaf? ==> Entries(t) == {(t.key, t.value)}
  {
    if t.Leaf? {
      assert Entries(t) == {(t.key, t.value)};
      assert (t.key, t.value) in Entries(t);
    }
  }

  lemma BelowNode(load: Loader, c: Ref, t: Tree, path: Key, len: nat) returns (m: map<Byte, Ref>)
    requires Below(load, c, t, path, len) && t.Inner?
    ensures c.NodeRef? && Shows(c.node, m) && RightSize(c.node) && HeaderOk(c.node.header)
    ensures HeaderHolds(c.node.header, t.prefix) && c.node.header.length == |t.prefix|
    ensures |path| + |t.prefix| < len && m.Keys == t.kids.Keys && |m| >= 2
    ensures forall b: Byte :: b in t.kids ==> Below(load, m[b], t.kids[b], path + t.prefix + [b], len)
  {
    m := StandsParts(load, c, t);
    PathInside(t, path, len);
    hide Stands, Shaped, Entries, Lengths;
    forall b: Byte | b in t.kids ensures Below(load, m[b], t.kids[b], path + t.prefix + [b], len) {
      KidLengths(t, b, len);
      KidShaped(t, path, b);
    }
  }

  lemma HeaderBytes(h: Header, prefix: seq<Byte>)
    requires HeaderHolds(h, prefix)
    ensures |h.prefix| == 9 && h.length == |prefix|
    ensures var k := if |prefix| < 9 then |prefix| else 9; h.prefix[..k] == prefix[..k]
  {
  }

  // ---------------------------------------------------------------- the least and the greatest key

  method Minimum(load: Loader, c: Ref, ghost t: Tree, ghost path: Key) returns (tid: nat)
    requires Stands(load, c, t) && Shaped(t, path)
    ensures (load(tid), tid) in Entries(t) && forall e :: e in Entries(t) ==> Before(load(tid), e.0)
    decreases t
  {
    LeafStands(load, c, t);
    hide Stands, Shaped;
    if c.LeafRef? {
      LeafEntries(t);
      return c.tid;
    }
    ghost var m := StandsParts(load, c, t);
    var k;
    ghost var b;
    k, b := FirstChild(c.node, m);
    KidShaped(t, path, b);
    tid := Minimum(load, k, t.kids[b], path + t.prefix + [b]);
    ghost var min := (load(tid), tid);
    KidEntry(t, b, min);
    forall e | e in Entries(t) ensures Before(load(tid), e.0) {
      KeysFollowPath(t, path, e);
      KeysFollowPath(t, path, min);
      EntryInKid(t, path, b, min);
      if e.0[|path + t.prefix|] != b { OrderedAt(path + t.prefix, min.0, e.0); }
    }
  }

  method Maximum(load: Loader, c: Ref, ghost t: Tree, ghost path: Key) returns (tid: nat)
    requires Stands(load, c, t) && Shaped(t, path)
    ensures (load(tid), tid) in Entries(t) && forall e :: e in Entries(t) ==> Before(e.0, load(tid))
    decreases t
  {
    LeafStands(load, c, t);
    hide Stands, Shaped;
    if c.LeafRef? {
      LeafEntries(t);
      return c.tid;
    }
    ghost var m := StandsParts(load, c, t);
    var k;
    ghost var b;
    k, b := LastChild(c.node, m);
    KidShaped(t, path, b);
    tid := Maximum(load, k, t.kids[b], path + t.prefix + [b]);
    ghost var max := (load(tid), tid);
    KidEntry(t, b, max);
    forall e | e in Entries(t) ensures Before(e.0, load(tid)) {
      KeysFollowPath(t, path, e);
      KeysFollowPath(t, path, max);
      EntryInKid(t, path, b, max);
      if e.0[|path + t.prefix|] != b { OrderedAt(path + t.prefix, e.0, max.0); }
    }
  }

  lemma LeafEntries(t: Tree)
    requires t.Leaf?
    ensures Entries(t) == {(t.key, t.value)}
  {
  }

  lemma KidEntry(t: Tree, b: Byte, e: Entry)
    requires t.Inner? && b in t.kids && e in Entries(t.kids[b])
    ensures e in Entries(t)
  {
  }

  // ---------------------------------------------------------------- comparing

  /** The first place, from one to another, where the bytes differ. */
  method Differ(a: seq<Byte>, i: nat, b: seq<Byte>, j: nat, from: nat, to: nat) returns (pos: nat)
    requires from <= to && i + to <= |a| && j + to <= |b|
    ensures from <= pos <= to && a[i + from..i + pos] == b[j + from..j + pos]
    ensures pos < to ==> a[i + pos] != b[j + pos]
  {
    pos := from;
    while pos < to && a[i + pos] == b[j + pos]
      invariant from <= pos <= to && a[i + from..i + pos] == b[j + from..j + pos]
    {
      OneFurther(a, i + from, i + pos, b, j + from, j + pos);
      pos := pos + 1;
    }
  }

  lemma OneFurther(a: seq<Byte>, i: nat, i': nat, b: seq<Byte>, j: nat, j': nat)
    requires i <= i' < |a| && j <= j' < |b| && a[i..i'] == b[j..j'] && a[i'] == b[j']
    ensures a[i..i' + 1] == b[j..j' + 1]
  {
    assert a[i..i' + 1] == a[i..i'] + [a[i']];
    assert b[j..j' + 1] == b[j..j'] + [b[j']];
  }

  /** `leafMatches` */
  method LeafMatches(load: Loader, tid: nat, key: Key, depth: nat) returns (r: bool)
    requires depth <= |key| == |load(tid)|
    ensures r <==> load(tid)[depth..] == key[depth..]
  {
    if depth != |key| {
      var leafKey := load(tid);
      var pos := Differ(leafKey, 0, key, 0, depth, |key|);
      if pos < |key| {
        assert leafKey[depth..][pos - depth] != key[depth..][pos - depth];
        return false;
      }
      assert leafKey[depth..] == leafKey[depth..pos] && key[depth..] == key[depth..pos];
    }
    return true;
  }

  /** `prefixMismatch`: how many bytes of the true path the key follows, the least leaf telling those not stored. */
  method PrefixMismatch(load: Loader, c: Ref, key: Key, depth: nat, ghost t: Tree, ghost path: Key) returns (pos: nat)
    requires Below(load, c, t, path, |key|) && t.Inner? && depth == |path| && path <= key
    ensures depth + |t.prefix| < |key| && pos <= |t.prefix| && key[depth..depth + pos] == t.prefix[..pos]
    ensures pos < |t.prefix| ==> key[depth + pos] != t.prefix[pos]
    ensures pos == |t.prefix| <==> path + t.prefix <= key
  {
    hide *;
    ghost var m := BelowNode(load, c, t, path, |key|);
    var h := c.node.header;
    HeaderBytes(h, t.prefix);
    if h.length > 9 {
      pos := Differ(key, depth, h.prefix, 0, 0, 9);
      SameStart(h.prefix, t.prefix, 9, pos);
      if pos == 9 {
        pos := BeyondStored(load, c, key, depth, t, path);
      }
    } else {
      pos := Differ(key, depth, h.prefix, 0, 0, h.length);
      SameStart(h.prefix, t.prefix, h.length, pos);
    }
    Followed(path, t.prefix, key, pos);
  }

  method BeyondStored(load: Loader, c: Ref, key: Key, depth: nat, ghost t: Tree, ghost path: Key) returns (pos: nat)
    requires Below(load, c, t, path, |key|) && t.Inner? && c.NodeRef? && c.node.header.length == |t.prefix| > 9
    requires depth == |path| && depth + |t.prefix| < |key| && key[depth..depth + 9] == t.prefix[..9]
    ensures pos <= |t.prefix| && key[depth..depth + pos] == t.prefix[..pos]
    ensures pos < |t.prefix| ==> key[depth + pos] != t.prefix[pos]
  {
    hide *;
    var min := LeastBelow(load, c, |key|, t, path);
    var minKey := load(min);
    pos := Differ(key, depth, minKey, depth, 9, c.node.header.length);
    Joined(key, minKey, depth, t.prefix, 9, pos);
  }

  lemma SameStart(a: seq<Byte>, b: seq<Byte>, n: nat, pos: nat)
    requires pos <= n <= |a| && n <= |b| && a[..n] == b[..n]
    ensures a[0..pos] == b[..pos] && (pos < n ==> a[pos] == b[pos])
  {
    assert a[..n][..pos] == a[0..pos] && b[..n][..pos] == b[..pos];
    if pos < n { assert a[..n][pos] == b[..n][pos]; }
  }

  lemma Joined(key: Key, minKey: Key, depth: nat, prefix: seq<Byte>, k: nat, pos: nat)
    requires k <= pos <= |prefix| && depth + |prefix| < |key| == |minKey|
    requires minKey[depth..depth + |prefix|] == prefix && key[depth..depth + k] == prefix[..k]
    requires key[depth + k..depth + pos] == minKey[depth + k..depth + pos]
    ensures key[depth..depth + pos] == prefix[..pos]
    ensures pos < |prefix| ==> minKey[depth + pos] == prefix[pos]
  {
    assert key[depth..depth + pos] == key[depth..depth + k] + key[depth + k..depth + pos];
    SliceSlice(minKey, depth, depth + |prefix|, k, pos);
    assert prefix[..pos] == prefix[..k] + prefix[k..pos];
    if pos < |prefix| { assert minKey[depth..depth + |prefix|][pos] == minKey[depth + pos]; }
  }

  lemma SliceSlice(s: seq<Byte>, a: nat, b: nat, c: nat, d: nat)
    requires a <= b <= |s| && c <= d <= b - a
    ensures s[a..b][c..d] == s[a + c..a + d]
  {
    forall i | 0 <= i < d - c ensures s[a..b][c..d][i] == s[a + c..a + d][i] {
      assert s[a..b][c..d][i] == s[a..b][c + i];
    }
  }

  lemma LeastFollows(t: Tree, path: Key, len: nat, e: Entry)
    requires t.Inner? && Shaped(t, path) && Lengths(Entries(t), len) && e in Entries(t)
    ensures |e.0| == len && |path| + |t.prefix| < len && e.0[|path|..|path| + |t.prefix|] == t.prefix
  {
    KeysFollowPath(t, path, e);
    SliceOf(path, t.prefix, e.0);
  }

  /** The least leaf tells the path of the node. */
  method LeastBelow(load: Loader, c: Ref, len: nat, ghost t: Tree, ghost path: Key) returns (tid: nat)
    requires Below(load, c, t, path, len) && t.Inner?
    ensures |load(tid)| == len && |path| + |t.prefix| < len
    ensures load(tid)[|path|..|path| + |t.prefix|] == t.prefix
  {
    BelowShaped(load, c, t, path, len);
    hide *;
    tid := Minimum(load, c, t, path);
    LeastFollows(t, path, len, (load(tid), tid));
  }

  lemma Followed(path: Key, prefix: seq<Byte>, key: Key, pos: nat)
    requires path <= key && |path| + |prefix| < |key| && pos <= |prefix|
    requires key[|path|..|path| + pos] == prefix[..pos]
    requires pos < |prefix| ==> key[|path| + pos] != prefix[pos]
    ensures pos == |prefix| <==> path + prefix <= key
  {
    if pos == |prefix| {
      assert path + prefix == key[..|path| + |prefix|];
    } else if path + prefix <= key {
      SliceOf(path, prefix, key);
    }
  }

  // ---------------------------------------------------------------- the two lookups

  /** What the optimistic lookup finds: short paths are compared, long ones skipped, and the leaf is compared from
      where nothing has been skipped, unless the key has been used up. */
  ghost function Found(t: Tree, key: Key, depth: nat, skipped: bool): Option<Value>
    decreases t
  {
    match t
    case Leaf(_, k, v) =>
      var from := if skipped then 0 else depth;
      if depth == |key| || (from <= |k| && from <= |key| && k[from..] == key[from..]) then Some(v) else None
    case Inner(_, prefix, kids) =>
      var d := depth + |prefix|;
      if d >= |key| then None
      else if |prefix| < 9 && key[depth..d] != prefix then None
      else if key[d] in kids then Found(kids[key[d]], key, d + 1, skipped || |prefix| >= 9)
      else None
  }

  function StepPath(path: Key, prefix: seq<Byte>, b: Byte): (r: Key)
    ensures r == path + prefix + [b] && |r| == |path| + |prefix| + 1
  {
    path + prefix + [b]
  }

  lemma FoundBelow(t: Tree, key: Key, depth: nat, skipped: bool)
    requires t.Inner? && depth + |t.prefix| < |key|
    ensures var d := depth + |t.prefix|;
      Found(t, key, depth, skipped) ==
      if |t.prefix| < 9 && key[depth..d] != t.prefix then None
      else if key[d] in t.kids then Found(t.kids[key[d]], key, d + 1, skipped || |t.prefix| >= 9)
      else None
  {
  }

  /** `lookup` */
  method Lookup(load: Loader, root: Option<Ref>, key: Key, ghost t: Option<Tree>) returns (r: Option<nat>)
    requires root.Some? <==> t.Some?
    requires t.Some? ==> Below(load, root.value, t.value, [], |key|)
    ensures r == if t.None? then None else Found(t.value, key, 0, false)
  {
    hide *;
    var node, depth, skipped := root, 0, false;
    ghost var s: Tree, path: Key := if t.Some? then t.value else Leaf(0, [], 0), [];
    ghost var answer := if t.Some? then Found(t.value, key, 0, false) else None;
    while node.Some?
      invariant node.Some? ==> Below(load, node.value, s, path, |key|) && |path| == depth
      invariant answer == if node.Some? then Found(s, key, depth, skipped) else None
      decreases node.Some?, s
    {
      BelowLeaf(load, node.value, s, path, |key|);
      if node.value.LeafRef? {
        r := LeafFound(load, node.value.tid, key, depth, skipped, s);
        return;
      }
      node, depth, skipped := SkipDown(load, node.value, key, depth, skipped, s, path);
      if node.Some? {
        path, s := StepPath(path, s.prefix, key[depth]), s.kids[key[depth]];
      }
      depth := depth + 1;
    }
    return None;
  }

  /** `lookup` at a leaf: compared from where nothing was skipped, if the key has not been used up. */
  method LeafFound(load: Loader, tid: nat, key: Key, depth: nat, skipped: bool, ghost s: Tree) returns (r: Option<nat>)
    requires s.Leaf? && tid == s.value && s.key == load(tid) && depth <= |key| == |s.key|
    ensures r == Found(s, key, depth, skipped)
  {
    if !skipped && depth == |key| { return Some(tid); }
    if depth != |key| {
      var same := LeafMatches(load, tid, key, if skipped then 0 else depth);
      if !same { return None; }
    }
    return Some(tid);
  }

  /** One step of `lookup` at an inner node: the child for the byte behind the path, which is compared if short. */
  method SkipDown(load: Loader, node: Ref, key: Key, depth: nat, skipped: bool, ghost s: Tree, ghost path: Key)
      returns (next: Option<Ref>, d: nat, skips: bool)
    requires Below(load, node, s, path, |key|) && s.Inner? && node.NodeRef? && |path| == depth
    ensures next.None? ==> Found(s, key, depth, skipped) == None
    ensures next.Some? ==> d == depth + |s.prefix| < |key| && key[d] in s.kids
                           && Below(load, next.value, s.kids[key[d]], path + s.prefix + [key[d]], |key|)
                           && Found(s, key, depth, skipped) == Found(s.kids[key[d]], key, d + 1, skips)
  {
    hide *;
    ghost var m := BelowNode(load, node, s, path, |key|);
    FoundBelow(s, key, depth, skipped);
    var h := node.node.header;
    d, skips := depth, skipped;
    if h.length != 0 {
      if h.length < 9 {
        HeaderBytes(h, s.prefix);
        var pos := Differ(key, depth, h.prefix, 0, 0, h.length);
        SameStart(h.prefix, s.prefix, h.length, pos);
        Compared(key, depth, s.prefix, pos);
        if pos < h.length { return None, d, skips; }
      } else {
        skips := true;
      }
      d := d + h.length;
    } else {
      Compared(key, depth, s.prefix, 0);
    }
    next := FindChild(node.node, key[d], m);
  }

  lemma Compared(key: Key, depth: nat, prefix: seq<Byte>, pos: nat)
    requires depth + |prefix| < |key| && pos <= |prefix|
    requires key[depth..depth + pos] == prefix[..pos]
    requires pos < |prefix| ==> key[depth + pos] != prefix[pos]
    ensures key[depth..depth + |prefix|] == prefix <==> pos == |prefix|
  {
    if pos < |prefix| { assert key[depth..depth + |prefix|][pos] != prefix[pos]; }
    assert prefix[..|prefix|] == prefix;
  }

  /** `lookupPessimistic` */
  method LookupPessimistic(load: Loader, root: Option<Ref>, key: Key, ghost t: Option<Tree>) returns (r: Option<nat>)
    requires root.Some? <==> t.Some?
    requires t.Some? ==> Below(load, root.value, t.value, [], |key|)
    ensures r.Some? <==> t.Some? && HasKey(Entries(t.value), key)
    ensures r.Some? ==> t.Some? && (key, r.value) in Entries(t.value)
  {
    hide *;
    var node, depth := root, 0;
    ghost var s: Tree, path: Key := if t.Some? then t.value else Leaf(0, [], 0), [];
    ghost var top := s;
    AnswerSelf(s, key);
    while node.Some?
      invariant node.Some? ==> Below(load, node.value, s, path, |key|) && |path| == depth && path <= key
      invariant node.Some? ==> SameAnswer(s, top, key)
      invariant node.None? && t.Some? ==> !HasKey(Entries(top), key)
      decreases node.Some?, s
    {
      BelowLeaf(load, node.value, s, path, |key|);
      AnswerKept(s, top, key);
      if node.value.LeafRef? {
        var same := LeafMatches(load, node.value.tid, key, depth);
        LeafDecides(s, path, key);
        return if same then Some(node.value.tid) else None;
      }
      node, depth := StepDown(load, node.value, key, depth, s, path);
      if node.Some? {
        AnswerTwice(s.kids[key[depth]], s, top, key);
        path, s := StepPath(path, s.prefix, key[depth]), s.kids[key[depth]];
      }
      depth := depth + 1;
    }
    return None;
  }

  /** The same values are stored for the key. */
  ghost predicate SameAnswer(s: Tree, t: Tree, key: Key) {
    forall v: Value :: (key, v) in Entries(s) <==> (key, v) in Entries(t)
  }

  lemma AnswerKept(s: Tree, t: Tree, key: Key)
    requires SameAnswer(s, t, key)
    ensures HasKey(Entries(s), key) <==> HasKey(Entries(t), key)
    ensures forall v: Value :: (key, v) in Entries(s) ==> (key, v) in Entries(t)
  {
  }

  lemma AnswerSelf(s: Tree, key: Key)
    ensures SameAnswer(s, s, key)
  {
  }

  lemma AnswerTwice(r: Tree, s: Tree, t: Tree, key: Key)
    requires SameAnswer(r, s, key) && SameAnswer(s, t, key)
    ensures SameAnswer(r, t, key)
  {
  }

  /** One step of `lookupPessimistic` at an inner node: the whole path is compared. */
  method StepDown(load: Loader, node: Ref, key: Key, depth: nat, ghost s: Tree, ghost path: Key)
      returns (next: Option<Ref>, d: nat)
    requires Below(load, node, s, path, |key|) && s.Inner? && node.NodeRef? && |path| == depth && path <= key
    ensures next.None? ==> !HasKey(Entries(s), key)
    ensures next.Some? ==> d == depth + |s.prefix| < |key| && key[d] in s.kids && path + s.prefix + [key[d]] <= key
                           && Below(load, next.value, s.kids[key[d]], path + s.prefix + [key[d]], |key|)
                           && SameAnswer(s.kids[key[d]], s, key)
  {
    hide *;
    ghost var m := BelowNode(load, node, s, path, |key|);
    var pos := PrefixMismatch(load, node, key, depth, s, path);
    BelowShaped(load, node, s, path, |key|);
    d := depth;
    if pos != node.node.header.length {
      OffThePath(s, path, key);
      return None, d;
    }
    d := d + node.node.header.length;
    next := FindChild(node.node, key[d], m);
    KidDecides(s, path, key);
    KeyStep(path + s.prefix, key);
  }

  lemma BelowShaped(load: Loader, c: Ref, t: Tree, path: Key, len: nat)
    requires Below(load, c, t, path, len)
    ensures Stands(load, c, t) && Shaped(t, path) && Lengths(Entries(t), len)
  {
  }

  lemma LeafDecides(t: Tree, path: Key, key: Key)
    requires t.Leaf? && path <= t.key && path <= key && |t.key| == |key|
    ensures t.key[|path|..] == key[|path|..] <==> t.key == key
    ensures HasKey(Entries(t), key) <==> t.key == key
    ensures t.key == key ==> (key, t.value) in Entries(t)
  {
    assert Entries(t) == {(t.key, t.value)};
    if t.key[|path|..] == key[|path|..] {
      assert t.key == path + t.key[|path|..] && key == path + key[|path|..];
    }
    if t.key == key { assert (key, t.value) in Entries(t); }
  }

  /** A key that leaves the path of a node is not below it. */
  lemma OffThePath(t: Tree, path: Key, key: Key)
    requires t.Inner? && Shaped(t, path) && !(path + t.prefix <= key)
    ensures !HasKey(Entries(t), key)
  {
    hide Shaped, Entries;
    if HasKey(Entries(t), key) {
      var v: Value :| (key, v) in Entries(t);
      KeysFollowPath(t, path, (key, v));
    }
  }

  /** Whatever is stored for a key is below the child for its byte behind the path. */
  lemma KidDecides(t: Tree, path: Key, key: Key)
    requires t.Inner? && Shaped(t, path) && |path| + |t.prefix| < |key|
    ensures var b := key[|path| + |t.prefix|];
      if b in t.kids
      then (HasKey(Entries(t), key) <==> HasKey(Entries(t.kids[b]), key)) && SameAnswer(t.kids[b], t, key)
      else !HasKey(Entries(t), key)
  {
    var b := key[|path| + |t.prefix|];
    forall v: Value ensures (key, v) in Entries(t) <==> b in t.kids && (key, v) in Entries(t.kids[b]) {
      if (key, v) in Entries(t) { KeysFollowPath(t, path, (key, v)); }
      if b in t.kids && (key, v) in Entries(t.kids[b]) { KidEntry(t, b, (key, v)); }
    }
  }

  // ---------------------------------------------------------------- inserting

  /** A Node4 without children. */
  method NewNode4(length: nat, prefix: seq<Byte>, from: nat) returns (n: Node<Ref>)
    requires from + (if length < 9 then length else 9) <= |prefix|
    ensures n.Node4? && Shows(n, map[]) && n.count == 0 && HeaderOk(n.header) && n.header.length == length
    ensures forall i :: 0 <= i < 9 && i < length ==> n.header.prefix[i] == prefix[from + i]
    ensures from + length <= |prefix| ==> HeaderHolds(n.header, prefix[from..from + length])
  {
    var h := FreshHeader();
    var k := if length < 9 then length else 9;
    h := Header(length, prefix[from..from + k] + h.prefix[k..]);
    n := Node4(h, 0, [0, 0, 0, 0], [None, None, None, None]);
  }

  /** A node with two children, as both splits build it. */
  method Fork(n: Node<Ref>, b: Byte, c: Ref, b': Byte, c': Ref) returns (r: Node<Ref>)
    requires n.Node4? && Shows(n, map[]) && HeaderOk(n.header) && b != b'
    ensures Shows(r, map[b := c, b' := c']) && SameHeader(n.header, r.header) && RightSize(r)
  {
    var m0: map<Byte, Ref> := map[];
    var n1 := InsertNode4(n, b, c, m0);
    assert m0[b := c] == map[b := c];
    r := InsertNode4(n1, b', c', map[b := c]);
    assert map[b := c][b' := c'] == map[b := c, b' := c'];
    ForkSize(b, c, b', c');
    HeaderTwice(n.header, n1.header, r.header);
  }

  lemma ForkSize(b: Byte, c: Ref, b': Byte, c': Ref)
    requires b != b'
    ensures |map[b := c]| == 1 && |map[b := c, b' := c']| == 2
  {
    var m: map<Byte, Ref> := map[];
    OneMore(m, b, c);
    assert m[b := c] == map[b := c];
    OneMore(map[b := c], b', c');
    assert map[b := c][b' := c'] == map[b := c, b' := c'];
  }

  /** The abstract node over two subtrees. */
  lemma ForkStands(load: Loader, r: Node<Ref>, prefix: seq<Byte>, path: Key, b: Byte, c: Ref, s: Tree, b': Byte,
                   c': Ref, s': Tree) returns (t: Tree)
    requires Shows(r, map[b := c, b' := c']) && RightSize(r) && HeaderHolds(r.header, prefix) && b != b'
    requires Stands(load, c, s) && Stands(load, c', s')
    requires Shaped(s, path + prefix + [b]) && Shaped(s', path + prefix + [b'])
    ensures Stands(load, NodeRef(r), t) && Shaped(t, path) && Entries(t) == Entries(s) + Entries(s')
  {
    hide Stands, Shaped, Entries;
    t := Inner(0, prefix, map[b := s, b' := s']);
    MakeFork(t, path, b, s, b', s');
    ForkKids(load, r, b, c, s, b', c', s');
    StandsIs(load, r, map[b := c, b' := c'], t);
  }

  lemma ForkKids(load: Loader, r: Node<Ref>, b: Byte, c: Ref, s: Tree, b': Byte, c': Ref, s': Tree)
    requires Shows(r, map[b := c, b' := c']) && Stands(load, c, s) && Stands(load, c', s') && b != b'
    ensures KidsStand(load, r, map[b := c, b' := c'], map[b := s, b' := s'])
  {
    hide Stands, Shows;
    var m, kids := map[b := c, b' := c'], map[b := s, b' := s'];
    assert m.Keys == {b, b'} == kids.Keys;
  }

  /** `insert`, of a key that is not stored. */
  method Insert(load: Loader, c: Ref, key: Key, value: nat, depth: nat, ghost t: Tree, ghost path: Key)
      returns (r: Ref, ghost t': Tree)
    requires Below(load, c, t, path, |key|) && !HasKey(Entries(t), key)
    requires key == load(value) && depth == |path| && path <= key
    ensures Stands(load, r, t') && Shaped(t', path) && Entries(t') == Put(Entries(t), key, value)
    decreases t
  {
    hide *;
    BelowLeaf(load, c, t, path, |key|);
    if c.LeafRef? {
      r, t' := InsertAtLeaf(load, c, key, value, depth, t, path);
      return;
    }
    ghost var m := BelowNode(load, c, t, path, |key|);
    BelowShaped(load, c, t, path, |key|);
    var n := c.node;
    var d := depth;
    if n.header.length != 0 {
      var pos := PrefixMismatch(load, c, key, depth, t, path);
      if pos != n.header.length {
        r, t' := SplitPrefix(load, c, key, value, depth, pos, t, path);
        return;
      }
      d := depth + n.header.length;
    } else {
      EmptyPrefix(path, t.prefix, key);
    }
    KeyStep(path + t.prefix, key);
    var b := key[d];
    var child := FindChild(n, b, m);
    if child.Some? {
      KidDecides(t, path, key);
      var k;
      ghost var s;
      k, s := Insert(load, child.value, key, value, d + 1, t.kids[b], path + t.prefix + [b]);
      var n' := ReplaceChild(n, b, k, m);
      t' := Inner(0, t.prefix, t.kids[b := s]);
      KidPut(load, c, n', t, t', path, m, b, k, s, |key|);
      KidIs(t, b);
      PutBelow(t, t', path, b, s, key, value);
      r := NodeRef(n');
    } else {
      var n' := InsertNode(n, b, LeafRef(value), m);
      ghost var leaf := Leaf(0, key, value);
      t' := Inner(0, t.prefix, t.kids[b := leaf]);
      NewLeafStands(load, leaf);
      KidPut(load, c, n', t, t', path, m, b, LeafRef(value), leaf, |key|);
      LeafShaped(leaf, path + t.prefix + [b], key);
      NewKidPut(t, b, key, value);
      PutBelow(t, t', path, b, leaf, key, value);
      r := NodeRef(n');
    }
  }

  /** A node with the children that it had and one put in stands for the tree with that. */
  lemma KidPut(load: Loader, c: Ref, n': Node<Ref>, t: Tree, t': Tree, path: Key, m: map<Byte, Ref>, b: Byte, k: Ref,
               s: Tree, len: nat)
    requires Below(load, c, t, path, len) && t.Inner? && c.NodeRef? && HeaderHolds(c.node.header, t.prefix)
    requires m.Keys == t.kids.Keys
    requires forall x: Byte :: x in t.kids ==> Below(load, m[x], t.kids[x], path + t.prefix + [x], len)
    requires Added(c.node, n', m, b, k) && RightSize(n') && Stands(load, k, s)
    requires t' == Inner(0, t.prefix, t.kids[b := s])
    ensures Stands(load, NodeRef(n'), t')
  {
    hide Stands, Shaped, Shows, RightSize, HeaderHolds, SameHeader;
    HeaderKept(c.node.header, n'.header, t.prefix);
    KidReplaced(load, n', m, t.kids, b, k, s);
    StandsIs(load, n', m[b := k], t');
  }

  lemma EmptyPrefix(path: Key, prefix: seq<Byte>, key: Key)
    requires path <= key && |prefix| == 0
    ensures path + prefix == path && path + prefix <= key
  {
  }

  lemma KeyStep(q: Key, key: Key)
    requires q <= key && |q| < |key|
    ensures q + [key[|q|]] <= key
  {
    assert q + [key[|q|]] == key[..|q| + 1];
  }

  lemma HeaderKept(h: Header, h': Header, prefix: seq<Byte>)
    requires HeaderHolds(h, prefix) && SameHeader(h, h')
    ensures HeaderHolds(h', prefix)
  {
  }

  lemma KidReplaced(load: Loader, n: Node<Ref>, m: map<Byte, Ref>, kids: map<Byte, Tree>, b: Byte, k: Ref, s: Tree)
    requires Shows(n, m[b := k]) && m.Keys == kids.Keys && Stands(load, k, s)
    requires forall x: Byte :: x in kids ==> Stands(load, m[x], kids[x])
    ensures KidsStand(load, n, m[b := k], kids[b := s])
  {
    hide Stands, Shows;
    assert m[b := k].Keys == m.Keys + {b} && kids[b := s].Keys == kids.Keys + {b};
  }

  lemma KidIs(t: Tree, b: Byte)
    requires t.Inner? && b in t.kids
    ensures KidOf(t, b) == Entries(t.kids[b])
  {
  }

  lemma NewLeafStands(load: Loader, leaf: Tree)
    requires leaf.Leaf? && leaf.key == load(leaf.value)
    ensures Stands(load, LeafRef(leaf.value), leaf)
  {
  }

  lemma LeafShaped(leaf: Tree, path: Key, key: Key)
    requires leaf.Leaf? && leaf.key == key && path <= key
    ensures Shaped(leaf, path)
  {
  }

  lemma NewKidPut(t: Tree, b: Byte, key: Key, value: Value)
    requires t.Inner? && b !in t.kids
    ensures Entries(Leaf(0, key, value)) == Put(KidOf(t, b), key, value)
  {
    assert Without({}, key) == {};
  }

  /** A leaf is replaced by a node with it and the new leaf. */
  method InsertAtLeaf(load: Loader, c: Ref, key: Key, value: nat, depth: nat, ghost t: Tree, ghost path: Key)
      returns (r: Ref, ghost t': Tree)
    requires Below(load, c, t, path, |key|) && t.Leaf? && c.LeafRef? && !HasKey(Entries(t), key)
    requires key == load(value) && depth == |path| && path <= key
    ensures Stands(load, r, t') && Shaped(t', path) && Entries(t') == Put(Entries(t), key, value)
  {
    hide *;
    BelowLeaf(load, c, t, path, |key|);
    LeafDecides(t, path, key);
    var existing := load(c.tid);
    var length := 0;
    PartsLater(path, existing, key, 0);
    while existing[depth + length] == key[depth + length]
      invariant depth + length < |key| && existing[depth..depth + length] == key[depth..depth + length]
      decreases |key| - length
    {
      OneFurther(existing, depth, depth + length, key, depth, depth + length);
      PartsLater(path, existing, key, length + 1);
      length := length + 1;
    }
    var n := NewNode4(length, key, depth);
    var b, b' := existing[depth + length], key[depth + length];
    var f := Fork(n, b, c, b', LeafRef(value));
    BelowShaped(load, c, t, path, |key|);
    TwoPaths(path, key[depth..depth + length], existing, key);
    LeafShaped(t, path + key[depth..depth + length] + [b], existing);
    t' := LeafBeside(load, f, n.header, key[depth..depth + length], path, b, c, t, b', key, value);
    r := NodeRef(f);
  }

  lemma WholeTail(a: Key, i: nat, j: nat)
    requires i <= j <= |a|
    ensures j == |a| ==> a[i..j] == a[i..]
  {
  }

  /** Different keys of one length part before their end. */
  lemma PartsLater(path: Key, a: Key, b: Key, length: nat)
    requires |a| == |b| && path <= a && path <= b && a[|path|..] != b[|path|..] && |path| + length <= |a|
    requires a[|path|..|path| + length] == b[|path|..|path| + length]
    ensures |path| + length < |a|
  {
    WholeTail(a, |path|, |path| + length);
    WholeTail(b, |path|, |path| + length);
  }

  /** A new node over a subtree and the leaf of a key that is not in it. */
  lemma LeafBeside(load: Loader, f: Node<Ref>, h: Header, prefix: seq<Byte>, path: Key, b: Byte, c: Ref, s: Tree,
                   b': Byte, key: Key, value: nat) returns (t: Tree)
    requires b != b' && Shows(f, map[b := c, b' := LeafRef(value)]) && RightSize(f)
    requires SameHeader(h, f.header) && HeaderHolds(h, prefix)
    requires Stands(load, c, s) && Shaped(s, path + prefix + [b]) && !HasKey(Entries(s), key)
    requires path + prefix + [b'] <= key == load(value)
    ensures Stands(load, NodeRef(f), t) && Shaped(t, path) && Entries(t) == Put(Entries(s), key, value)
  {
    hide *;
    var leaf := Leaf(0, key, value);
    NewLeafStands(load, leaf);
    LeafShaped(leaf, path + prefix + [b'], key);
    HeaderKept(h, f.header, prefix);
    t := ForkStands(load, f, prefix, path, b, c, s, b', LeafRef(value), leaf);
    AddedEntries(Entries(s), leaf, key, value);
  }

  lemma TwoPaths(path: Key, prefix: seq<Byte>, a: Key, b: Key)
    requires path <= a && path <= b && |path| + |prefix| < |a| && |path| + |prefix| < |b|
    requires prefix == b[|path|..|path| + |prefix|] == a[|path|..|path| + |prefix|]
    ensures path + prefix + [a[|path| + |prefix|]] <= a && path + prefix + [b[|path| + |prefix|]] <= b
  {
    var k := |path| + |prefix|;
    assert path + prefix == a[..k] && path + prefix == b[..k];
    assert a[..k] + [a[k]] == a[..k + 1] && b[..k] + [b[k]] == b[..k + 1];
  }

  /** A node whose path the key leaves is pushed below a new one. */
  method SplitPrefix(load: Loader, c: Ref, key: Key, value: nat, depth: nat, pos: nat, ghost t: Tree, ghost path: Key)
      returns (r: Ref, ghost t': Tree)
    requires Below(load, c, t, path, |key|) && t.Inner? && c.NodeRef?
    requires !HasKey(Entries(t), key) && key == load(value) && depth == |path| && path <= key
    requires depth + |t.prefix| < |key| && pos < |t.prefix| && key[depth..depth + pos] == t.prefix[..pos]
    requires key[depth + pos] != t.prefix[pos]
    ensures Stands(load, r, t') && Shaped(t', path) && Entries(t') == Put(Entries(t), key, value)
  {
    hide *;
    ghost var m := BelowNode(load, c, t, path, |key|);
    HeaderBytes(c.node.header, t.prefix);
    var n := NewNode4(pos, c.node.header.prefix, 0);
    HeaderIs(n.header, t.prefix[..pos]);
    var b, h' := CutHeader(load, c, |key|, depth, pos, t, path);
    var lower := NodeRef(c.node.(header := h'));
    var f := Fork(n, b, lower, key[depth + pos], LeafRef(value));
    BelowShaped(load, c, t, path, |key|);
    ghost var s := LowerHalf(load, c.node, h', m, t, path, |key|, pos);
    SplitPath(path, t.prefix[..pos], key);
    t' := LeafBeside(load, f, n.header, t.prefix[..pos], path, b, lower, s, key[depth + pos], key, value);
    r := NodeRef(f);
  }

  lemma CutPath(path: Key, prefix: seq<Byte>, pos: nat)
    requires pos < |prefix|
    ensures path + prefix == (path + prefix[..pos] + [prefix[pos]]) + prefix[pos + 1..]
  {
  }

  lemma HeaderStarts(h: Header, prefix: seq<Byte>, k: nat)
    requires |h.prefix| == 9 && h.length == |prefix| && k == (if |prefix| < 9 then |prefix| else 9)
    requires h.prefix[..k] == prefix[..k]
    ensures HeaderHolds(h, prefix)
  {
    assert forall i :: 0 <= i < k ==> h.prefix[i] == h.prefix[..k][i];
  }

  lemma HeaderIs(h: Header, prefix: seq<Byte>)
    requires |h.prefix| == 9 && h.length == |prefix|
    requires forall i :: 0 <= i < 9 && i < |prefix| ==> h.prefix[i] == prefix[i]
    ensures HeaderHolds(h, prefix)
  {
  }

  /** The node that is pushed down keeps the rest of its path. */
  lemma LowerHalf(load: Loader, n: Node<Ref>, h: Header, m: map<Byte, Ref>, t: Tree, path: Key, len: nat, pos: nat)
      returns (s: Tree)
    requires Shows(n, m) && RightSize(n) && t.Inner? && m.Keys == t.kids.Keys && Shaped(t, path)
    requires pos < |t.prefix| && HeaderHolds(h, t.prefix[pos + 1..])
    requires forall b: Byte :: b in t.kids ==> Below(load, m[b], t.kids[b], path + t.prefix + [b], len)
    ensures Stands(load, NodeRef(n.(header := h)), s) && Entries(s) == Entries(t)
    ensures Shaped(s, path + t.prefix[..pos] + [t.prefix[pos]])
  {
    hide *;
    s := Inner(0, t.prefix[pos + 1..], t.kids);
    LowerStands(load, n, h, m, t, s, path, len);
    CutPath(path, t.prefix, pos);
    MovePrefix(t, s, path, path + t.prefix[..pos] + [t.prefix[pos]]);
  }

  /** A node with another path stands for the tree with that path. */
  lemma LowerStands(load: Loader, n: Node<Ref>, h: Header, m: map<Byte, Ref>, t: Tree, s: Tree, path: Key, len: nat)
    requires Shows(n, m) && RightSize(n) && t.Inner? && s.Inner? && s.kids == t.kids && m.Keys == t.kids.Keys
    requires HeaderHolds(h, s.prefix)
    requires forall b: Byte :: b in t.kids ==> Below(load, m[b], t.kids[b], path + t.prefix + [b], len)
    ensures Stands(load, NodeRef(n.(header := h)), s)
  {
    HeaderShows(n, h, m);
    hide Stands, Shaped, Lengths, Shows, RightSize, HeaderHolds;
    StandsIs(load, n.(header := h), m, s);
  }

  lemma HeaderShows(n: Node<Ref>, h: Header, m: map<Byte, Ref>)
    requires Shows(n, m) && RightSize(n)
    ensures Shows(n.(header := h), m) && RightSize(n.(header := h))
  {
  }

  lemma SplitPath(path: Key, prefix: seq<Byte>, key: Key)
    requires path <= key && |path| + |prefix| < |key| && key[|path|..|path| + |prefix|] == prefix
    ensures path + prefix + [key[|path| + |prefix|]] <= key
  {
    var k := |path| + |prefix|;
    assert path + prefix == key[..k];
    assert key[..k] + [key[k]] == key[..k + 1];
  }

  lemma AddedEntries(es: set<Entry>, leaf: Tree, key: Key, value: Value)
    requires leaf == Leaf(0, key, value) && !HasKey(es, key)
    ensures es + Entries(leaf) == Put(es, key, value)
  {
    forall e | e in es ensures e.0 != key { assert (e.0, e.1) in es; }
    assert Without(es, key) == es;
  }

  /** The byte of the path at a place, and the header for what comes after it. */
  method CutHeader(load: Loader, c: Ref, len: nat, depth: nat, pos: nat, ghost t: Tree, ghost path: Key)
      returns (b: Byte, h': Header)
    requires Below(load, c, t, path, len) && t.Inner? && c.NodeRef? && depth == |path| && pos < |t.prefix|
    ensures b == t.prefix[pos] && HeaderHolds(h', t.prefix[pos + 1..])
  {
    hide *;
    ghost var m := BelowNode(load, c, t, path, len);
    var h := c.node.header;
    HeaderBytes(h, t.prefix);
    var length := h.length - (pos + 1);
    var k := if length < 9 then length else 9;
    if h.length < 9 {
      CutSlice(h.prefix, 0, t.prefix, pos, k);
      b := h.prefix[pos];
      h' := Header(length, h.prefix[pos + 1..pos + 1 + k] + h.prefix[k..]);
    } else {
      var min := LeastBelow(load, c, len, t, path);
      var minKey := load(min);
      b := minKey[depth + pos];
      var at := depth + pos + 1;
      h' := Header(length, minKey[at..at + k] + h.prefix[k..]);
      CutSlice(minKey, depth, t.prefix, pos, k);
    }
    HeaderStarts(h', t.prefix[pos + 1..], k);
  }

  lemma CutSlice(bytes: seq<Byte>, at: nat, prefix: seq<Byte>, pos: nat, k: nat)
    requires pos + 1 + k <= |prefix| && at + |prefix| <= |bytes| && bytes[at..at + |prefix|] == prefix[..|prefix|]
    ensures bytes[at + pos] == prefix[pos] && bytes[at + pos + 1..at + pos + 1 + k] == prefix[pos + 1..][..k]
  {
    assert bytes[at..at + |prefix|][pos] == bytes[at + pos];
    SliceSlice(bytes, at, at + |prefix|, pos + 1, pos + 1 + k);
    SliceSlice(prefix, 0, |prefix|, pos + 1, pos + 1 + k);
    SliceSlice(prefix, pos + 1, |prefix|, 0, k);
    WholeTail(prefix, pos + 1, |prefix|);
  }

  // ---------------------------------------------------------------- erasing

  /** `erase`: the tree without the key, and nothing if that was its last. */
  method Erase(load: Loader, c: Ref, key: Key, depth: nat, ghost t: Tree, ghost path: Key)
      returns (r: Option<Ref>, ghost t': Option<Tree>)
    requires Below(load, c, t, path, |key|) && depth == |path| && path <= key
    ensures r.Some? <==> t'.Some?
    ensures r.Some? ==> Stands(load, r.value, t'.value) && Shaped(t'.value, path)
    ensures (if t'.Some? then Entries(t'.value) else {}) == Without(Entries(t), key)
    ensures r.None? ==> t.Leaf? && t.key == key
    decreases t
  {
    hide *;
    BelowLeaf(load, c, t, path, |key|);
    BelowShaped(load, c, t, path, |key|);
    if c.LeafRef? {
      LeafDecides(t, path, key);
      LeafWithout(t, key);
      var same := LeafMatches(load, c.tid, key, depth);
      if same { return None, None; }
      return Some(c), Some(t);
    }
    ghost var m := BelowNode(load, c, t, path, |key|);
    var n := c.node;
    var d := depth;
    if n.header.length != 0 {
      var pos := PrefixMismatch(load, c, key, depth, t, path);
      if pos != n.header.length {
        OffThePath(t, path, key);
        NothingWithout(Entries(t), key);
        return Some(c), Some(t);
      }
      d := depth + n.header.length;
    } else {
      EmptyPrefix(path, t.prefix, key);
    }
    KeyStep(path + t.prefix, key);
    var b := key[d];
    var child := FindChild(n, b, m);
    KidDecides(t, path, key);
    if child.None? {
      NothingWithout(Entries(t), key);
      return Some(c), Some(t);
    }
    var matches := ChildMatches(load, child.value, key, d, t.kids[b], path + t.prefix);
    if matches {
      KidsAre(load, n, t, path, m, |key|);
      r, t' := EraseLeaf(load, c, key, b, t, path, m);
    } else {
      var k;
      ghost var s;
      k, s := Erase(load, child.value, key, d + 1, t.kids[b], path + t.prefix + [b]);
      var n' := ReplaceChild(n, b, k.value, m);
      ghost var u := Inner(0, t.prefix, t.kids[b := s.value]);
      KidPut(load, c, n', t, u, path, m, b, k.value, s.value, |key|);
      KidIs(t, b);
      RemoveBelow(t, u, path, b, s.value, key);
      r, t' := Some(NodeRef(n')), Some(u);
    }
  }

  /** The child is the leaf of the key, compared from its byte in the node on. */
  method ChildMatches(load: Loader, c: Ref, key: Key, d: nat, ghost t: Tree, ghost q: Key) returns (r: bool)
    requires d == |q| < |key| && Below(load, c, t, q + [key[d]], |key|) && q + [key[d]] <= key
    ensures r <==> t.Leaf? && t.key == key
  {
    hide *;
    BelowLeaf(load, c, t, q + [key[d]], |key|);
    if c.LeafRef? {
      LeafFrom(t.key, q, key[d], key);
      r := LeafMatches(load, c.tid, key, d);
    } else {
      r := false;
    }
  }

  lemma LeafWithout(t: Tree, key: Key)
    requires t.Leaf?
    ensures Without(Entries(t), key) == if t.key == key then {} else Entries(t)
  {
  }

  lemma NothingWithout(es: set<Entry>, key: Key)
    requires !HasKey(es, key)
    ensures Without(es, key) == es
  {
    forall e | e in es ensures e.0 != key { assert (e.0, e.1) in es; }
  }

  /** Below the child for its byte, comparing a key from the byte on or from behind it is the same. */
  /** Below the child for its byte, comparing a key from the byte on is comparing it. */
  lemma LeafFrom(k: Key, q: Key, b: Byte, key: Key)
    requires q + [b] <= k && q + [b] <= key && |k| == |key|
    ensures k[|q|..] == key[|q|..] <==> k == key
  {
    assert q == k[..|q|] && q == key[..|q|] by {
      assert (q + [b])[..|q|] == q;
    }
    assert k == q + k[|q|..] && key == q + key[|q|..];
  }

  /** The leaf below a node goes; a Node4 left with one child is replaced by it. */
  method EraseLeaf(load: Loader, c: Ref, key: Key, b: Byte, ghost t: Tree, ghost path: Key, ghost m: map<Byte, Ref>)
      returns (r: Option<Ref>, ghost t': Option<Tree>)
    requires Below(load, c, t, path, |key|) && t.Inner? && c.NodeRef? && KidsBelow(load, c.node, t, path, m, |key|)
    requires b in t.kids && t.kids[b].Leaf? && t.kids[b].key == key
    ensures r.Some? && t'.Some? && Stands(load, r.value, t'.value) && Shaped(t'.value, path)
    ensures Entries(t'.value) == Without(Entries(t), key)
  {
    BelowShaped(load, c, t, path, |key|);
    KidsParts(load, c.node, t, path, m, |key|);
    hide *;
    var n := c.node;
    var n' := EraseNode(n, b, m);
    ghost var u := Inner(0, t.prefix, t.kids - {b});
    KidDropped(t, u, path, b);
    if n'.Node4? && n'.count == 1 {
      r, t' := Collapse(load, n', |key|, t, path, b, m);
    } else {
      DroppedStands(load, n, n', t, u, path, b, m, |key|);
      r, t' := Some(NodeRef(n')), Some(u);
    }
  }

  /** The node shows the references of the tree's children. */
  ghost predicate KidsBelow(load: Loader, n: Node<Ref>, t: Tree, path: Key, m: map<Byte, Ref>, len: nat)
    requires t.Inner?
  {
    && Shows(n, m) && RightSize(n) && HeaderHolds(n.header, t.prefix) && m.Keys == t.kids.Keys
    && forall x: Byte :: x in t.kids ==> Below(load, m[x], t.kids[x], path + t.prefix + [x], len)
  }

  lemma KidsAre(load: Loader, n: Node<Ref>, t: Tree, path: Key, m: map<Byte, Ref>, len: nat)
    requires t.Inner? && Shows(n, m) && RightSize(n) && HeaderHolds(n.header, t.prefix) && m.Keys == t.kids.Keys
    requires forall x: Byte :: x in t.kids ==> Below(load, m[x], t.kids[x], path + t.prefix + [x], len)
    ensures KidsBelow(load, n, t, path, m, len)
  {
  }

  lemma KidsParts(load: Loader, n: Node<Ref>, t: Tree, path: Key, m: map<Byte, Ref>, len: nat)
    requires t.Inner? && KidsBelow(load, n, t, path, m, len)
    ensures Shows(n, m) && RightSize(n) && HeaderHolds(n.header, t.prefix) && HeaderOk(n.header)
      && m.Keys == t.kids.Keys
  {
  }

  lemma DroppedStands(load: Loader, n: Node<Ref>, n': Node<Ref>, t: Tree, u: Tree, path: Key, b: Byte,
                      m: map<Byte, Ref>, len: nat)
    requires t.Inner? && KidsBelow(load, n, t, path, m, len) && b in t.kids && u == Inner(0, t.prefix, t.kids - {b})
    requires Erased(n, n', m, b) && RightSize(n')
    ensures Stands(load, NodeRef(n'), u) && |u.kids| >= 2
  {
    KidsParts(load, n, t, path, m, len);
    ShowsSize(n', m - {b});
    SameSize(m - {b}, u.kids);
    assert (m - {b}).Keys == m.Keys - {b} && (t.kids - {b}).Keys == t.kids.Keys - {b};
    hide Stands, Shaped, Shows, Lengths;
    HeaderKept(n.header, n'.header, t.prefix);
    StandsIs(load, n', m - {b}, u);
  }

  lemma SameSize(m: map<Byte, Ref>, kids: map<Byte, Tree>)
    ensures m.Keys == kids.Keys ==> |m| == |kids|
  {
    assert |m| == |m.Keys| && |kids| == |kids.Keys|;
  }

  /** The last child takes the place of the node, and an inner one its path too. */
  method Collapse(load: Loader, n: Node<Ref>, len: nat, ghost t: Tree, ghost path: Key, ghost b: Byte,
                  ghost m: map<Byte, Ref>) returns (r: Option<Ref>, ghost t': Option<Tree>)
    requires t.Inner? && Shaped(t, path) && b in t.kids && n.Node4? && n.count == 1 && Shows(n, m - {b})
    requires m.Keys == t.kids.Keys && HeaderHolds(n.header, t.prefix)
    requires forall x: Byte :: x in t.kids ==> Below(load, m[x], t.kids[x], path + t.prefix + [x], len)
    ensures r.Some? && t'.Some? && Stands(load, r.value, t'.value) && Shaped(t'.value, path)
    ensures Entries(t'.value) == Entries(Inner(0, t.prefix, t.kids - {b}))
  {
    ghost var x := n.key[0];
    OneLeft(n, m - {b}, x);
    OneKidLeft(t, m, b, x);
    hide *;
    var child := n.child[0].value;
    ghost var kid, q := t.kids[x], path + t.prefix + [x];
    BelowShaped(load, child, kid, q, len);
    BelowLeaf(load, child, kid, q, len);
    OnlyKid(Inner(0, t.prefix, t.kids - {b}), path, x, kid);
    if child.LeafRef? {
      r, t' := Some(child), Some(kid);
    } else {
      ghost var km := BelowNode(load, child, kid, q, len);
      var h := MergeHeader(n.header, n.key[0], child.node.header, t.prefix, kid.prefix);
      ghost var s := Inner(0, t.prefix + [x] + kid.prefix, kid.kids);
      LowerStands(load, child.node, h, km, kid, s, q, len);
      JoinPath(path, t.prefix, x, kid.prefix);
      MovePrefix(kid, s, q, path);
      r, t' := Some(NodeRef(child.node.(header := h))), Some(s);
    }
  }

  lemma JoinPath(path: Key, outer: seq<Byte>, x: Byte, inner: seq<Byte>)
    ensures (path + outer + [x]) + inner == path + (outer + [x] + inner)
  {
  }

  lemma OneLeft(n: Node<Ref>, m: map<Byte, Ref>, x: Byte)
    requires n.Node4? && n.count == 1 && Shows(n, m) && |n.key| == 4 && n.key[0] == x
    ensures x in m && n.child[0] == Some(m[x]) && m.Keys == {x}
  {
    forall y: Byte | y in m ensures y == x { assert HasByte(n.key, 1, y); }
  }

  lemma OneKidLeft(t: Tree, m: map<Byte, Ref>, b: Byte, x: Byte)
    requires t.Inner? && m.Keys == t.kids.Keys && (m - {b}).Keys == {x}
    ensures x in t.kids && t.kids - {b} == map[x := t.kids[x]] && (m - {b})[x] == m[x]
  {
    assert x in m - {b};
    assert (t.kids - {b}).Keys == (m - {b}).Keys;
  }

  /** The stored bytes of path + byte + path. */
  method MergeHeader(h: Header, x: Byte, below: Header, ghost outer: seq<Byte>, ghost inner: seq<Byte>)
      returns (r: Header)
    requires HeaderHolds(h, outer) && HeaderHolds(below, inner)
    ensures HeaderHolds(r, outer + [x] + inner)
  {
    var prefix := h.prefix;
    var l1 := h.length;
    if l1 < 9 {
      prefix := prefix[l1 := x];
      l1 := l1 + 1;
    }
    if l1 < 9 {
      var l2 := if below.length < 9 - l1 then below.length else 9 - l1;
      prefix := prefix[..l1] + below.prefix[..l2] + prefix[l1 + l2..];
      l1 := l1 + l2;
    }
    var k := if l1 < 9 then l1 else 9;
    r := Header(below.length + h.length + 1, prefix[..k] + below.prefix[k..]);
    ghost var whole := outer + [x] + inner;
    forall i | 0 <= i < 9 && i < |whole| ensures r.prefix[i] == whole[i] {
      if i < |outer| {
        assert whole[i] == outer[i];
      } else if i == |outer| {
        assert whole[i] == x;
      } else {
        assert whole[i] == inner[i - |outer| - 1];
      }
    }
  }
}
