/** The abstract adaptive radix tree: leaves with full keys, inner nodes with a compressed path
    and at least two children.  The tree a key set has is unique, which is why the shape of an
    adaptive radix tree does not depend on the order of insertions and deletions. */
module ArtShape {
  import opened ArtNode

  type Key = seq<Byte>
  type Value = nat
  type Entry = (Key, Value)

  datatype Option<T> = None | Some(value: T)

  /** Nodes carry the address of the memory cell that holds them. */
  datatype Tree =
    | Leaf(at: Ptr, key: Key, value: Value)
    | Inner(at: Ptr, prefix: seq<Byte>, kids: map<Byte, Tree>)

  ghost function Entries(t: Tree): set<Entry> {
    match t
    case Leaf(_, key, value) => {(key, value)}
    case Inner(_, _, kids) => set b: Byte, e | b in kids && e in Entries(kids[b]) :: e
  }

  /** Every key below a node starts with the bytes on the path to it, and paths really branch. */
  ghost predicate Shaped(t: Tree, path: Key) {
    match t
    case Leaf(_, key, _) => path <= key
    case Inner(_, prefix, kids) =>
      && (exists b: Byte, c: Byte :: b in kids && c in kids && b != c)
      && forall b: Byte :: b in kids ==> Shaped(kids[b], path + prefix + [b])
  }

  ghost function Put(es: set<Entry>, key: Key, value: Value): set<Entry> {
    Without(es, key) + {(key, value)}
  }

  ghost function Without(es: set<Entry>, key: Key): set<Entry> {
    set e | e in es && e.0 != key
  }

  ghost predicate HasKey(es: set<Entry>, key: Key) {
    exists v: Value :: (key, v) in es
  }

  lemma {:induction false} KeysFollowPath(t: Tree, path: Key, e: Entry)
    requires Shaped(t, path) && e in Entries(t)
    ensures path <= e.0
    ensures t.Inner? ==> path + t.prefix <= e.0 && |path + t.prefix| < |e.0|
    ensures t.Inner? ==> e.0[|path + t.prefix|] in t.kids && e in Entries(t.kids[e.0[|path + t.prefix|]])
    decreases t
  {
    match t
    case Leaf(_, _, _) =>
    case Inner(_, prefix, kids) =>
      var b: Byte :| b in kids && e in Entries(kids[b]);
      KeysFollowPath(kids[b], path + prefix + [b], e);
      assert path + prefix + [b] <= e.0;
      assert e.0[|path + prefix|] == b;
  }

  lemma {:induction false} NotEmpty(t: Tree, path: Key) returns (e: Entry)
    requires Shaped(t, path)
    ensures e in Entries(t)
    decreases t
  {
    match t
    case Leaf(_, key, value) => e := (key, value);
    case Inner(_, prefix, kids) =>
      var b: Byte :| b in kids;
      e := NotEmpty(kids[b], path + prefix + [b]);
  }

  /** A tree stores at most one value for a key. */
  lemma {:induction false} Functional(t: Tree, path: Key, key: Key, v: Value, w: Value)
    requires Shaped(t, path) && (key, v) in Entries(t) && (key, w) in Entries(t)
    ensures v == w
    decreases t
  {
    if t.Inner? {
      KeysFollowPath(t, path, (key, v));
      KeysFollowPath(t, path, (key, w));
      var b := key[|path + t.prefix|];
      Functional(t.kids[b], path + t.prefix + [b], key, v, w);
    }
  }

  // ----- uniqueness -----

  /** The same branching, prefixes and keys; values, addresses and layouts are not compared. */
  ghost predicate SameShape(s: Tree, t: Tree) {
    match (s, t)
    case (Leaf(_, k, _), Leaf(_, k', _)) => k == k'
    case (Inner(_, p, kids), Inner(_, p', kids')) =>
      p == p' && kids.Keys == kids'.Keys && forall b: Byte :: b in kids ==> SameShape(kids[b], kids'[b])
    case _ => false
  }

  /** Two keys that part right after the prefix of an inner node. */
  lemma Fork(t: Tree, path: Key) returns (e: Entry, f: Entry)
    requires t.Inner? && Shaped(t, path)
    ensures e in Entries(t) && f in Entries(t)
    ensures var q := path + t.prefix;
      q <= e.0 && q <= f.0 && |q| < |e.0| && |q| < |f.0| && e.0[|q|] != f.0[|q|]
  {
    var b: Byte, c: Byte :| b in t.kids && c in t.kids && b != c;
    e := NotEmpty(t.kids[b], path + t.prefix + [b]);
    f := NotEmpty(t.kids[c], path + t.prefix + [c]);
    KeysFollowPath(t.kids[b], path + t.prefix + [b], e);
    KeysFollowPath(t.kids[c], path + t.prefix + [c], f);
    KeysFollowPath(t, path, e);
    KeysFollowPath(t, path, f);
    assert (path + t.prefix + [b])[|path + t.prefix|] == b;
    assert (path + t.prefix + [c])[|path + t.prefix|] == c;
  }

  ghost function KeysOf(es: set<Entry>): set<Key> {
    set e | e in es :: e.0
  }

  lemma EntryOf(es: set<Entry>, key: Key) returns (e: Entry)
    requires key in KeysOf(es)
    ensures e in es && e.0 == key
  {
    e :| e in es && e.0 == key;
  }

  /** The keys decide the prefix: it is all that they have in common after the path. */
  lemma PrefixNotLonger(s: Tree, t: Tree, path: Key)
    requires s.Inner? && t.Inner? && Shaped(s, path) && Shaped(t, path)
    requires KeysOf(Entries(s)) == KeysOf(Entries(t))
    ensures |t.prefix| <= |s.prefix|
    ensures |t.prefix| == |s.prefix| ==> s.prefix == t.prefix
  {
    hide Shaped, Entries;
    var e, f := Fork(s, path);
    assert e.0 in KeysOf(Entries(t)) && f.0 in KeysOf(Entries(t));
    var e' := EntryOf(Entries(t), e.0);
    var f' := EntryOf(Entries(t), f.0);
    KeysFollowPath(t, path, e');
    KeysFollowPath(t, path, f');
    SliceOf(path, s.prefix, e.0);
    SliceOf(path, t.prefix, e.0);
    SliceOf(path, t.prefix, f.0);
    if |t.prefix| > |s.prefix| {
      assert false;
    }
  }

  lemma SliceOf(path: Key, prefix: seq<Byte>, key: Key)
    requires path + prefix <= key
    ensures prefix == key[|path|..|path| + |prefix|]
    ensures forall i :: 0 <= i < |prefix| ==> key[|path| + i] == prefix[i]
  {
    assert forall i :: 0 <= i < |prefix| ==> (path + prefix)[|path| + i] == prefix[i];
  }

  lemma KidEntries(t: Tree, path: Key, b: Byte)
    requires t.Inner? && Shaped(t, path)
    ensures b in t.kids ==> Entries(t.kids[b]) == Through(Entries(t), path + t.prefix, b)
    ensures b !in t.kids ==> Through(Entries(t), path + t.prefix, b) == {}
  {
    var q := path + t.prefix;
    forall e | e in Through(Entries(t), q, b)
      ensures b in t.kids && e in Entries(t.kids[b])
    {
      KeysFollowPath(t, path, e);
    }
    if b in t.kids {
      forall e | e in Entries(t.kids[b])
        ensures e in Through(Entries(t), q, b)
      {
        KeysFollowPath(t.kids[b], q + [b], e);
        KeysFollowPath(t, path, e);
        assert (q + [b])[|q|] == b;
      }
    }
  }

  /** The entries whose key has byte b right after q. */
  ghost function Through(es: set<Entry>, q: Key, b: Byte): set<Entry> {
    set e | e in es && q <= e.0 && |q| < |e.0| && e.0[|q|] == b
  }

  /** The keys that have byte b right after q. */
  ghost function KeysThrough(ks: set<Key>, q: Key, b: Byte): set<Key> {
    set k | k in ks && q <= k && |q| < |k| && k[|q|] == b
  }

  lemma KidKeys(t: Tree, path: Key, b: Byte)
    requires t.Inner? && Shaped(t, path)
    ensures b in t.kids ==> KeysOf(Entries(t.kids[b])) == KeysThrough(KeysOf(Entries(t)), path + t.prefix, b)
    ensures b !in t.kids ==> KeysThrough(KeysOf(Entries(t)), path + t.prefix, b) == {}
  {
    KidEntries(t, path, b);
    hide Shaped, Entries;
    var q, es := path + t.prefix, Entries(t);
    forall k ensures k in KeysThrough(KeysOf(es), q, b) <==> k in KeysOf(Through(es, q, b)) {
      if k in KeysThrough(KeysOf(es), q, b) {
        var e := EntryOf(es, k);
        assert e in Through(es, q, b);
      }
    }
    assert KeysThrough(KeysOf(es), q, b) == KeysOf(Through(es, q, b));
  }

  /** History independence: trees with the same keys have the same shape, whatever the values are. */
  lemma {:induction false} KeysDetermineShape(s: Tree, t: Tree, path: Key)
    requires Shaped(s, path) && Shaped(t, path) && KeysOf(Entries(s)) == KeysOf(Entries(t))
    ensures SameShape(s, t)
    decreases s
  {
    if s.Leaf? && t.Leaf? {
      assert s.key in KeysOf(Entries(s)) by { assert (s.key, s.value) in Entries(s); }
      var e := EntryOf(Entries(t), s.key);
    } else if s.Leaf? {
      ForkIsNoLeaf(t, s, path);
    } else if t.Leaf? {
      ForkIsNoLeaf(s, t, path);
    } else {
      PrefixNotLonger(s, t, path);
      PrefixNotLonger(t, s, path);
      hide KeysOf, KeysThrough, Entries;
      forall b: Byte
        ensures b in s.kids <==> b in t.kids
        ensures b in s.kids && b in t.kids ==> SameShape(s.kids[b], t.kids[b])
      {
        KidKeys(s, path, b);
        KidKeys(t, path, b);
        if b in s.kids { HasAKey(s.kids[b], path + s.prefix + [b]); }
        if b in t.kids { HasAKey(t.kids[b], path + t.prefix + [b]); }
        if b in s.kids && b in t.kids { KeysDetermineShape(s.kids[b], t.kids[b], path + s.prefix + [b]); }
      }
      assert s.kids.Keys == t.kids.Keys;
    }
  }

  lemma ForkIsNoLeaf(t: Tree, leaf: Tree, path: Key)
    requires t.Inner? && Shaped(t, path) && leaf.Leaf?
    ensures KeysOf(Entries(t)) != KeysOf(Entries(leaf))
  {
    var e, f := Fork(t, path);
    hide Shaped;
    assert e.0 != f.0;
    assert e.0 in KeysOf(Entries(t)) && f.0 in KeysOf(Entries(t));
    assert KeysOf(Entries(leaf)) == {leaf.key};
  }

  lemma HasAKey(t: Tree, path: Key)
    requires Shaped(t, path)
    ensures KeysOf(Entries(t)) != {}
  {
    var e := NotEmpty(t, path);
    assert e.0 in KeysOf(Entries(t));
  }

  // ----- the order of keys -----

  /** Lexicographic order by unsigned bytes. */
  ghost predicate Before(a: Key, b: Key) {
    a == b || exists i :: DiffersAt(a, b, i)
  }

  ghost predicate DiffersAt(a: Key, b: Key, i: int) {
    0 <= i < |a| && i < |b| && a[..i] == b[..i] && a[i] < b[i]
  }

  /** Keys that part after the path of a node are ordered as the bytes there. */
  lemma OrderedAt(q: Key, a: Key, b: Key)
    requires q <= a && q <= b && |q| < |a| && |q| < |b| && a[|q|] < b[|q|]
    ensures Before(a, b)
  {
    assert a[..|q|] == q == b[..|q|];
    assert DiffersAt(a, b, |q|);
  }

  lemma KidShaped(t: Tree, path: Key, b: Byte)
    requires t.Inner? && b in t.kids && Shaped(t, path)
    ensures Shaped(t.kids[b], path + t.prefix + [b])
  {
  }

  lemma EntryInKid(t: Tree, path: Key, b: Byte, e: Entry)
    requires t.Inner? && Shaped(t, path) && b in t.kids && e in Entries(t.kids[b])
    ensures |path + t.prefix| < |e.0| && e.0[|path + t.prefix|] == b
  {
    KidShaped(t, path, b);
    KeysFollowPath(t.kids[b], path + t.prefix + [b], e);
    assert (path + t.prefix + [b])[|path + t.prefix|] == b;
  }

  /** Keys that differ somewhere are ordered one way. */
  lemma NotAfter(a: Key, b: Key, i: int)
    requires DiffersAt(a, b, i)
    ensures !Before(b, a)
  {
    if Before(b, a) {
      var j :| DiffersAt(b, a, j);
      SameUpTo(a, b, i);
      SameUpTo(b, a, j);
    }
  }

  lemma SameUpTo(a: Key, b: Key, k: nat)
    requires k <= |a| && k <= |b| && a[..k] == b[..k]
    ensures forall i :: 0 <= i < k ==> a[i] == b[i]
  {
    assert forall i :: 0 <= i < k ==> a[..k][i] == b[..k][i];
  }

  // ----- one change below one kid -----

  /** The entries of a node once the subtree at byte b is exchanged. */
  lemma KidExchanged(t: Tree, t': Tree, path: Key, b: Byte, c: Tree, key: Key)
    requires t.Inner? && t'.Inner? && Shaped(t, path)
    requires t'.prefix == t.prefix && t'.kids == t.kids[b := c]
    requires var q := path + t.prefix; q + [b] <= key && Shaped(c, q + [b])
    ensures Shaped(t', path)
    ensures Entries(t') == (Entries(t) - KidOf(t, b)) + Entries(c)
    ensures forall e :: e in Entries(t) && e !in KidOf(t, b) ==> e.0 != key
  {
    var q := path + t.prefix;
    var x: Byte, y: Byte :| x in t.kids && y in t.kids && x != y;
    assert x in t'.kids && y in t'.kids;
    ExchangedEntries(t, t', b, c, q, path);
    forall e | e in Entries(t) && e !in KidOf(t, b)
      ensures e.0 != key
    {
      KeysFollowPath(t, path, e);
      assert (q + [b])[|q|] == b;
    }
  }

  ghost function KidOf(t: Tree, b: Byte): set<Entry>
    requires t.Inner?
  {
    if b in t.kids then Entries(t.kids[b]) else {}
  }

  lemma ExchangedEntries(t: Tree, t': Tree, b: Byte, c: Tree, q: Key, path: Key)
    requires t.Inner? && t'.Inner? && Shaped(t, path) && q == path + t.prefix
    requires t'.kids == t.kids[b := c]
    ensures Entries(t') == (Entries(t) - KidOf(t, b)) + Entries(c)
  {
    forall e | e in Entries(t')
      ensures e in (Entries(t) - KidOf(t, b)) + Entries(c)
    {
      var x: Byte :| x in t'.kids && e in Entries(t'.kids[x]);
      if x != b {
        assert e in Entries(t.kids[x]);
        KidsApart(t, path, x, b, e);
      }
    }
    forall e | e in (Entries(t) - KidOf(t, b)) + Entries(c)
      ensures e in Entries(t')
    {
      if e in Entries(c) {
        assert t'.kids[b] == c;
      } else {
        var x: Byte :| x in t.kids && e in Entries(t.kids[x]);
        assert t'.kids[x] == t.kids[x];
      }
    }
  }

  lemma KidsApart(t: Tree, path: Key, x: Byte, b: Byte, e: Entry)
    requires t.Inner? && Shaped(t, path) && x in t.kids && x != b && e in Entries(t.kids[x])
    ensures e !in KidOf(t, b)
  {
    var q := path + t.prefix;
    KeysFollowPath(t.kids[x], q + [x], e);
    assert (q + [x])[|q|] == x;
    assert (q + [b])[|q|] == b;
    if b in t.kids && e in Entries(t.kids[b]) {
      KeysFollowPath(t.kids[b], q + [b], e);
    }
  }

  /** Putting a key into the subtree it runs through puts it into the node. */
  lemma PutBelow(t: Tree, t': Tree, path: Key, b: Byte, c: Tree, key: Key, value: Value)
    requires t.Inner? && t'.Inner? && Shaped(t, path)
    requires t'.prefix == t.prefix && t'.kids == t.kids[b := c]
    requires var q := path + t.prefix; q + [b] <= key && Shaped(c, q + [b])
    requires Entries(c) == Put(KidOf(t, b), key, value)
    ensures Shaped(t', path) && Entries(t') == Put(Entries(t), key, value)
  {
    hide Shaped, Entries;
    KidExchanged(t, t', path, b, c, key);
    KidSubset(t, b);
  }

  lemma KidSubset(t: Tree, b: Byte)
    requires t.Inner?
    ensures KidOf(t, b) <= Entries(t)
  {
  }

  /** Removing a key from the subtree it runs through removes it from the node. */
  lemma RemoveBelow(t: Tree, t': Tree, path: Key, b: Byte, c: Tree, key: Key)
    requires t.Inner? && t'.Inner? && Shaped(t, path)
    requires t'.prefix == t.prefix && t'.kids == t.kids[b := c]
    requires var q := path + t.prefix; q + [b] <= key && Shaped(c, q + [b])
    requires Entries(c) == Without(KidOf(t, b), key)
    ensures Shaped(t', path) && Entries(t') == Without(Entries(t), key)
  {
    hide Shaped, Entries;
    KidExchanged(t, t', path, b, c, key);
    KidSubset(t, b);
  }

  // ----- splits -----

  /** Two subtrees that part right after path + prefix make a node. */
  lemma MakeFork(t: Tree, path: Key, b: Byte, s: Tree, c: Byte, u: Tree)
    requires t.Inner? && b != c && t.kids == map[b := s, c := u]
    requires Shaped(s, path + t.prefix + [b]) && Shaped(u, path + t.prefix + [c])
    ensures Shaped(t, path) && Entries(t) == Entries(s) + Entries(u)
  {
    hide Shaped, Entries;
    assert b in t.kids && c in t.kids && t.kids[b] == s && t.kids[c] == u;
    ShapedIs(t, path, b, c);
    forall e ensures e in Entries(t) <==> e in Entries(s) + Entries(u) {
      EntryBelow(t, e);
    }
  }

  lemma ShapedIs(t: Tree, path: Key, b: Byte, c: Byte)
    requires t.Inner? && b in t.kids && c in t.kids && b != c
    requires forall x: Byte :: x in t.kids ==> Shaped(t.kids[x], path + t.prefix + [x])
    ensures Shaped(t, path)
  {
  }

  lemma EntryBelow(t: Tree, e: Entry)
    requires t.Inner?
    ensures e in Entries(t) <==> exists b: Byte :: b in t.kids && e in Entries(t.kids[b])
  {
  }

  /** Moving the end of a path into the prefix of the node below, or back, keeps the tree. */
  lemma MovePrefix(t: Tree, t': Tree, path: Key, path': Key)
    requires t.Inner? && t'.Inner? && t'.kids == t.kids
    requires path + t.prefix == path' + t'.prefix
    requires Shaped(t, path)
    ensures Shaped(t', path') && Entries(t') == Entries(t)
  {
  }

  // ----- removing a kid -----

  lemma KidDropped(t: Tree, t': Tree, path: Key, b: Byte)
    requires t.Inner? && t'.Inner? && Shaped(t, path) && b in t.kids
    requires t.kids[b].Leaf?
    requires t'.prefix == t.prefix && t'.kids == t.kids - {b}
    ensures Entries(t') == Without(Entries(t), t.kids[b].key)
    ensures |t'.kids| >= 2 ==> Shaped(t', path)
  {
    var l := t.kids[b];
    forall e | e in Entries(t')
      ensures e in Entries(t) && e.0 != l.key
    {
      var x: Byte :| x in t'.kids && e in Entries(t'.kids[x]);
      assert e in Entries(t.kids[x]);
      KidsApartKeys(t, path, x, b, e);
    }
    forall e | e in Entries(t) && e.0 != l.key
      ensures e in Entries(t')
    {
      var x: Byte :| x in t.kids && e in Entries(t.kids[x]);
      assert x in t'.kids && t'.kids[x] == t.kids[x];
    }
    if |t'.kids| >= 2 {
      TwoKeys(t'.kids);
    }
  }

  lemma KidsApartKeys(t: Tree, path: Key, x: Byte, b: Byte, e: Entry)
    requires t.Inner? && Shaped(t, path) && x in t.kids && b in t.kids && x != b
    requires t.kids[b].Leaf? && e in Entries(t.kids[x])
    ensures e.0 != t.kids[b].key
  {
    var q := path + t.prefix;
    KeysFollowPath(t.kids[x], q + [x], e);
    assert (q + [x])[|q|] == x;
    KeysFollowPath(t.kids[b], q + [b], (t.kids[b].key, t.kids[b].value));
    assert (q + [b])[|q|] == b;
  }

  /** A node whose only child is left holds what the child holds. */
  lemma OnlyKid(t: Tree, path: Key, b: Byte, c: Tree)
    requires t.Inner? && t.kids == map[b := c] && Shaped(c, path + t.prefix + [b])
    ensures Entries(t) == Entries(c)
    ensures c.Leaf? ==> Shaped(c, path)
  {
    assert t.kids[b] == c;
    forall e | e in Entries(c) ensures e in Entries(t) {
      assert b in t.kids;
    }
    if c.Leaf? {
      assert path <= path + t.prefix + [b];
    }
  }

  lemma TwoKeys(m: map<Byte, Tree>)
    requires |m| >= 2
    ensures exists b: Byte, c: Byte :: b in m && c in m && b != c
  {
    var b :| b in m.Keys;
    if m.Keys == {b} { assert false; }
    assert m.Keys - {b} != {};
    var c :| c in m.Keys - {b};
  }
}
