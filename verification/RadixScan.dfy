/** Range scans over the radix tree: along the sibling list and by climbing, with the same result. */
module RadixScan {
  import opened RadixShape
  import opened RadixTree

  /** What a tree binds, as a function of the key; 0 means nothing. */
  type Binding = nat -> int

  /** keys are the bound keys from start up to end, in order. */
  ghost predicate Scanned(f: Binding, start: nat, end: nat, keys: seq<nat>) {
    && Increasing(keys)
    && (forall i :: 0 <= i < |keys| ==> start <= keys[i] < end && f(keys[i]) != 0)
    && (forall k :: start <= k < end && f(k) != 0 ==> k in keys)
  }

  /** keys are the num smallest bound keys from start on, or all of them if there are fewer. */
  ghost predicate Smallest(f: Binding, start: nat, num: nat, keys: seq<nat>) {
    && Increasing(keys) && |keys| <= num
    && (forall i :: 0 <= i < |keys| ==> start <= keys[i] && f(keys[i]) != 0)
    && (forall k :: start <= k && f(k) != 0 ==> k in keys || (|keys| == num && (num > 0 ==> k > keys[num - 1])))
  }

  ghost function Values(f: Binding, keys: seq<nat>): (r: seq<int>)
    ensures |r| == |keys|
  {
    seq(|keys|, i requires 0 <= i < |keys| => f(keys[i]))
  }

  // ---------------------------------------------------------------- one entry further

  lemma ScanStart(f: Binding, start: nat)
    ensures Scanned(f, start, start, [])
  {
  }

  lemma ScanSkip(f: Binding, start: nat, end: nat, keys: seq<nat>)
    requires Scanned(f, start, end, keys) && f(end) == 0
    ensures Scanned(f, start, end + 1, keys)
  {
    hide Increasing;
  }

  lemma ScanTake(f: Binding, start: nat, end: nat, keys: seq<nat>)
    requires Scanned(f, start, end, keys) && start <= end && f(end) != 0
    ensures Scanned(f, start, end + 1, keys + [end])
    ensures Values(f, keys + [end]) == Values(f, keys) + [f(end)]
  {
    var keys' := keys + [end];
    assert forall i :: 0 <= i < |keys| ==> keys'[i] == keys[i];
    assert keys'[|keys|] == end;
    forall k | start <= k < end + 1 && f(k) != 0 ensures k in keys' {
      if k == end { assert keys'[|keys|] == k; }
    }
  }

  lemma ScanJump(f: Binding, start: nat, end: nat, end': nat, keys: seq<nat>)
    requires Scanned(f, start, end, keys) && end <= end' && forall k :: end <= k < end' ==> f(k) == 0
    ensures Scanned(f, start, end', keys)
  {
    hide Increasing;
  }

  lemma ScanFull(f: Binding, start: nat, end: nat, keys: seq<nat>, num: nat)
    requires Scanned(f, start, end, keys) && |keys| == num
    ensures Smallest(f, start, num, keys)
  {
  }

  lemma ScanAll(f: Binding, start: nat, end: nat, keys: seq<nat>, num: nat)
    requires Scanned(f, start, end, keys) && |keys| <= num && forall k :: end <= k ==> f(k) == 0
    ensures Smallest(f, start, num, keys)
  {
    hide Increasing;
  }

  /** There is only one such sequence: two trees with the same bindings are scanned alike. */
  lemma {:induction false} SmallestUnique(f: Binding, start: nat, num: nat, a: seq<nat>, b: seq<nat>, n: nat)
    requires Smallest(f, start, num, a) && Smallest(f, start, num, b) && n <= |a|
    ensures n <= |b| && a[..n] == b[..n]
    decreases n
  {
    if n > 0 {
      SmallestUnique(f, start, num, a, b, n - 1);
      assert a[..n - 1] == b[..n - 1];
      var x := a[n - 1];
      assert forall i :: 0 <= i < n - 1 ==> b[i] == a[i];
      SmallestNext(f, start, num, a, b, n);
      assert a[..n] == a[..n - 1] + [a[n - 1]];
      assert b[..n] == b[..n - 1] + [b[n - 1]];
    }
  }

  lemma SmallestNext(f: Binding, start: nat, num: nat, a: seq<nat>, b: seq<nat>, n: nat)
    requires Smallest(f, start, num, a) && Smallest(f, start, num, b) && 0 < n <= |a| && n - 1 <= |b|
    requires forall i :: 0 <= i < n - 1 ==> b[i] == a[i]
    ensures n <= |b| && b[n - 1] == a[n - 1]
  {
    var x := a[n - 1];
    SmallestHas(f, start, num, b, x);
    if n <= |b| {
      var y := b[n - 1];
      SmallestHas(f, start, num, a, y);
    }
  }

  /** A bound key is listed, unless num smaller ones are. */
  lemma SmallestHas(f: Binding, start: nat, num: nat, keys: seq<nat>, x: nat)
    requires Smallest(f, start, num, keys) && start <= x && f(x) != 0
    ensures x in keys || (|keys| == num && forall i :: 0 <= i < |keys| ==> keys[i] < x)
  {
  }

  // ---------------------------------------------------------------- scanning a tree

  ghost function BindingOf(nodes: Nodes, at: Places): Binding {
    (key: nat) => Bound(nodes, at, key)
  }

  lemma BindingAt(nodes: Nodes, at: Places, key: nat)
    ensures BindingOf(nodes, at)(key) == Bound(nodes, at, key)
  {
  }

  lemma EntryIs(nodes: Nodes, at: Places, q: nat, i: nat)
    requires Pos(1, q) in at && at[Pos(1, q)] in nodes && |nodes[at[Pos(1, q)]].entries| == 8 && i < 8
    ensures Bound(nodes, at, 8 * q + i) == nodes[at[Pos(1, q)]].entries[i]
  {
  }

  /** No leaves between q and q' (or none beyond q): nothing is bound there. */
  lemma NothingBetween(nodes: Nodes, at: Places, q: nat, q': nat, last: bool)
    requires forall x: nat :: Pos(1, x) in at && x > q ==> !last && q' <= x
    ensures forall k: nat :: 8 * q + 8 <= k && (last || k < 8 * q') ==> BindingOf(nodes, at)(k) == 0
  {
    forall k: nat | 8 * q + 8 <= k && (last || k < 8 * q') ensures BindingOf(nodes, at)(k) == 0 {
      assert k / 8 > q;
    }
  }

  /** The entries of one leaf from idx on, until num values are found. */
  method ScanLeaf(t: Tree, leaf: Ptr, idx: nat, num: nat, buf: seq<int>, ghost q: nat, ghost start: nat,
                  ghost keys: seq<nat>)
    returns (buf': seq<int>, ghost keys': seq<nat>)
    requires Pos(1, q) in t.at && leaf == t.at[Pos(1, q)] && leaf in t.nodes && |t.nodes[leaf].entries| == 8 && idx <= 8
    requires |buf| < num && start <= 8 * q + idx
    requires buf == Values(BindingOf(t.nodes, t.at), keys)
      && Scanned(BindingOf(t.nodes, t.at), start, 8 * q + idx, keys)
    ensures buf' == Values(BindingOf(t.nodes, t.at), keys') && |buf'| <= num
    ensures |buf'| == num ==> Smallest(BindingOf(t.nodes, t.at), start, num, keys')
    ensures |buf'| < num ==> Scanned(BindingOf(t.nodes, t.at), start, 8 * q + 8, keys')
  {
    hide *;
    ghost var f := BindingOf(t.nodes, t.at);
    buf', keys' := buf, keys;
    var i := idx;
    while i < 8
      invariant i <= 8 && |buf'| < num && start <= 8 * q + i
      invariant buf' == Values(f, keys') && Scanned(f, start, 8 * q + i, keys')
    {
      EntryIs(t.nodes, t.at, q, i);
      BindingAt(t.nodes, t.at, 8 * q + i);
      NullIsZero();
      if t.nodes[leaf].entries[i] != NULL {
        ScanTake(f, start, 8 * q + i, keys');
        buf' := buf' + [t.nodes[leaf].entries[i]];
        keys' := keys' + [8 * q + i];
        if |buf'| == num {
          ScanFull(f, start, 8 * q + i + 1, keys', num);
          return;
        }
      } else {
        ScanSkip(f, start, 8 * q + i, keys');
      }
      i := i + 1;
    }
  }

  /** `Range_Lookup2`: along the sibling list. */
  method RangeBySiblings(t: Tree, start: nat, num: nat) returns (buf: seq<int>, ghost keys: seq<nat>)
    requires t.Valid() && t.threaded && t.HasPath(start) && start < Pow8(t.height)
    ensures Smallest(BindingOf(t.nodes, t.at), start, num, keys) && buf == Values(BindingOf(t.nodes, t.at), keys)
    ensures exists ks ::
      Smallest(BindingOf(t.nodes, t.at), start, num, ks) && buf == Values(BindingOf(t.nodes, t.at), ks)
  {
    hide *;
    t.ValidIsBut();
    t.ButParts(0);
    t.HasPathIs(start);
    ghost var f := BindingOf(t.nodes, t.at);
    var leaf: Ptr, idx: nat := t.FindLeaf(start);
    ghost var q, m := start / 8, IndexOf(t.leaves, t.at, start / 8);
    buf, keys := [], [];
    ScanStart(f, start);
    NoValues(f);
    while |buf| < num
      invariant m < |t.leaves| && t.leaves[m] == q && Pos(1, q) in t.at && leaf == t.at[Pos(1, q)] && idx <= 8
      invariant buf == Values(f, keys) && |buf| <= num && start <= 8 * q + idx
      invariant |buf| < num ==> Scanned(f, start, 8 * q + idx, keys)
      invariant |buf| == num ==> Smallest(f, start, num, keys) || num == 0
      decreases |t.leaves| - m, if |buf| < num then 1 else 0
    {
      LeafThere(t.nodes, t.at, t.height, t.root, q);
      buf, keys := ScanLeaf(t, leaf, idx, num, buf, q, start, keys);
      if |buf| == num { return; }
      NextOfLeaf(t.nodes, t.at, t.height, t.root, t.leaves, m);
      leaf := t.nodes[leaf].sibling;
      if leaf == NULL {
        NothingBetween(t.nodes, t.at, q, 0, true);
        ScanAll(f, start, 8 * q + 8, keys, num);
        return;
      }
      NothingBetween(t.nodes, t.at, q, t.leaves[m + 1], false);
      ScanJump(f, start, 8 * q + 8, 8 * t.leaves[m + 1], keys);
      m := m + 1;
      q := t.leaves[m];
      idx := 0;
    }
    if num == 0 { SmallestNone(f, start); }
  }

  lemma NoValues(f: Binding)
    ensures Values(f, []) == []
  {
  }

  lemma SmallestNone(f: Binding, start: nat)
    ensures Smallest(f, start, 0, [])
  {
  }

  ghost function IndexOf(leaves: seq<nat>, at: Places, q: nat): (m: nat)
    requires Listed(at, leaves) && Pos(1, q) in at
    ensures m < |leaves| && leaves[m] == q
  {
    var m :| 0 <= m < |leaves| && leaves[m] == q;
    m
  }

  lemma LeafThere(nodes: Nodes, at: Places, height: nat, root: Ptr, q: nat)
    requires Web(nodes, at, height, root, 0) && Pos(1, q) in at
    ensures at[Pos(1, q)] in nodes && |nodes[at[Pos(1, q)]].entries| == 8
  {
    hide *;
    WebParts(nodes, at, height, root, 0);
    FitsParts(nodes, at, height, Pos(1, q));
  }

  lemma NextOfLeaf(nodes: Nodes, at: Places, height: nat, root: Ptr, leaves: seq<nat>, m: nat)
    requires Web(nodes, at, height, root, 0) && Listed(at, leaves) && Chained(nodes, at, leaves) && m < |leaves|
    ensures Pos(1, leaves[m]) in at && at[Pos(1, leaves[m])] in nodes
    ensures var next := nodes[at[Pos(1, leaves[m])]].sibling;
      && (next == NULL <==> m + 1 == |leaves|)
      && (next != NULL ==> Pos(1, leaves[m + 1]) in at && next == at[Pos(1, leaves[m + 1])])
    ensures m + 1 < |leaves| ==> leaves[m] < leaves[m + 1]
    ensures forall x: nat :: Pos(1, x) in at && x > leaves[m] ==> m + 1 < |leaves| && leaves[m + 1] <= x
  {
    hide Web;
    WebParts(nodes, at, height, root, 0);
    if m + 1 < |leaves| {
      assert leaves[m + 1] in leaves;
      FitsIn(nodes, at, height, Pos(1, leaves[m + 1]));
    }
    forall x: nat | Pos(1, x) in at && x > leaves[m] ensures m + 1 < |leaves| && leaves[m + 1] <= x {
      var i :| 0 <= i < |leaves| && leaves[i] == x;
      assert i > m;
    }
  }

  /** num keys from start on are bound. */
  ghost predicate Enough(f: Binding, start: nat, num: nat) {
    exists keys :: Smallest(f, start, num, keys) && |keys| == num
  }

  /** `Range_Lookup` of the unthreaded tree: from leaf to leaf by climbing.  In a tree of one level
      there is nowhere to climb, so there must be enough keys. */
  method RangeByClimbing(t: Tree, start: nat, num: nat) returns (buf: seq<int>, ghost keys: seq<nat>)
    requires t.Valid() && t.HasPath(start) && start < Pow8(t.height)
    requires t.height > 1 || Enough(BindingOf(t.nodes, t.at), start, num)
    ensures Smallest(BindingOf(t.nodes, t.at), start, num, keys) && buf == Values(BindingOf(t.nodes, t.at), keys)
    ensures exists ks ::
      Smallest(BindingOf(t.nodes, t.at), start, num, ks) && buf == Values(BindingOf(t.nodes, t.at), ks)
  {
    hide *;
    t.ValidIsBut();
    t.ButParts(0);
    t.HasPathIs(start);
    ghost var f := BindingOf(t.nodes, t.at);
    var leaf: Ptr, idx: nat := t.FindLeaf(start);
    ghost var q, m := start / 8, IndexOf(t.leaves, t.at, start / 8);
    buf, keys := [], [];
    ScanStart(f, start);
    NoValues(f);
    while |buf| < num
      invariant m < |t.leaves| && t.leaves[m] == q && Pos(1, q) in t.at && leaf == t.at[Pos(1, q)] && idx <= 8
      invariant buf == Values(f, keys) && |buf| <= num && start <= 8 * q + idx
      invariant |buf| < num ==> Scanned(f, start, 8 * q + idx, keys)
      invariant |buf| == num ==> Smallest(f, start, num, keys) || num == 0
      decreases |t.leaves| - m, if |buf| < num then 1 else 0
    {
      LeafThere(t.nodes, t.at, t.height, t.root, q);
      buf, keys := ScanLeaf(t, leaf, idx, num, buf, q, start, keys);
      if |buf| == num { return; }
      if t.height == 1 { OneLevel(t.nodes, t.at, t.root, q, start, num, keys); }
      ClimbReady(t.nodes, t.at, t.height, t.root, q);
      ghost var q';
      leaf, q' := t.FindNextLeaf(t.nodes[leaf].parent, t.nodes[leaf].index, 2, Pos(2, q / 8), 8 * q);
      AfterLeaf(t.at, q, q');
      if leaf == NULL {
        NothingBetween(t.nodes, t.at, q, 0, true);
        ScanAll(f, start, 8 * q + 8, keys, num);
        return;
      }
      NothingBetween(t.nodes, t.at, q, q', false);
      ScanJump(f, start, 8 * q + 8, 8 * q', keys);
      ghost var m' := IndexOf(t.leaves, t.at, q');
      LaterIndex(t.leaves, t.at, m, m');
      m := m';
      q := q';
      idx := 0;
    }
    if num == 0 { SmallestNone(f, start); }
  }

  /** The last leaf of a one-level tree has been read without finding enough keys: impossible. */
  lemma OneLevel(nodes: Nodes, at: Places, root: Ptr, q: nat, start: nat, num: nat, keys: seq<nat>)
    requires Web(nodes, at, 1, root, 0) && Pos(1, q) in at && Scanned(BindingOf(nodes, at), start, 8 * q + 8, keys)
      && |keys| < num
    ensures !Enough(BindingOf(nodes, at), start, num)
  {
    hide *;
    var f := BindingOf(nodes, at);
    WebParts(nodes, at, 1, root, 0);
    forall x: nat | Pos(1, x) in at ensures x == 0 { FitsParts(nodes, at, 1, Pos(1, x)); }
    NothingBetween(nodes, at, q, 0, true);
    ScanAll(f, start, 8 * q + 8, keys, num);
    NotEnough(f, start, num, keys);
  }

  lemma NotEnough(f: Binding, start: nat, num: nat, keys: seq<nat>)
    requires Smallest(f, start, num, keys) && |keys| < num
    ensures !Enough(f, start, num)
  {
    hide Smallest;
    if Enough(f, start, num) {
      var all :| Smallest(f, start, num, all) && |all| == num;
      SmallestUnique(f, start, num, all, keys, num);
    }
  }

  lemma ClimbReady(nodes: Nodes, at: Places, height: nat, root: Ptr, q: nat)
    requires Web(nodes, at, height, root, 0) && Pos(1, q) in at && height > 1
    ensures Web(nodes, at, height, root, 8 * q)
    ensures at[Pos(1, q)] in nodes
    ensures var n := nodes[at[Pos(1, q)]]; var pos := Pos(2, q / 8);
      pos in at && n.parent == at[pos] && n.index < 8 && 8 * pos.prefix + n.index == Prefix(8 * q, 1)
  {
    hide *;
    WebParts(nodes, at, height, root, 0);
    FitsParts(nodes, at, height, Pos(1, q));
    PathComplete(nodes, at, height, root, 0, 8 * q);
    LeafPrefix(q);
  }

  lemma AfterLeaf(at: Places, q: nat, q': nat)
    ensures NoneAfter(at, 1, Prefix(8 * q, 1)) ==> forall x: nat :: Pos(1, x) in at ==> x <= q
    ensures FirstAfter(at, 1, Prefix(8 * q, 1), q') ==> forall x: nat :: Pos(1, x) in at && x > q ==> q' <= x
    ensures Prefix(8 * q', 1) > Prefix(8 * q, 1) <==> q' > q
  {
    hide Prefix;
    OneLeaf(q);
  }

  lemma LaterIndex(leaves: seq<nat>, at: Places, m: nat, m': nat)
    requires Listed(at, leaves) && m < |leaves| && m' < |leaves| && leaves[m] < leaves[m']
    ensures m < m'
  {
  }

  /** The two scans of two trees with the same bindings fill the buffer with the same values. */
  lemma ScansAgree(f: Binding, g: Binding, start: nat, num: nat, a: seq<nat>, b: seq<nat>)
    requires forall k :: f(k) == g(k)
    requires Smallest(f, start, num, a) && Smallest(g, start, num, b)
    ensures a == b && Values(f, a) == Values(g, b)
  {
    assert Smallest(f, start, num, b);
    hide Smallest;
    SmallestUnique(f, start, num, a, b, |a|);
    SmallestUnique(f, start, num, b, a, |b|);
    assert a == b;
  }

  // ---------------------------------------------------------------- the same run on both trees

  /** What a key is bound to after some insertions. */
  ghost function BoundAfter(ops: seq<(nat, int)>, key: nat): int
    decreases |ops|
  {
    if ops == [] then 0
    else if ops[|ops| - 1].0 == key then ops[|ops| - 1].1
    else BoundAfter(ops[..|ops| - 1], key)
  }

  ghost function After(ops: seq<(nat, int)>): Binding {
    (key: nat) => BoundAfter(ops, key)
  }

  method Replay(t: Tree, ops: seq<(nat, int)>)
    requires t.Valid() && t.height == 1 && (forall k :: t.Value(k) == 0)
    requires forall i :: 0 <= i < |ops| ==> ops[i].0 < Pow8(21)
    modifies t
    ensures t.Valid() && t.height <= 21 && (forall k :: t.Value(k) == BoundAfter(ops, k))
    ensures forall i :: 0 <= i < |ops| ==> t.HasPath(ops[i].0)
  {
    hide *;
    var i := 0;
    AfterNone(ops);
    while i < |ops|
      invariant i <= |ops| && t.Valid() && t.height <= 21 && (forall k :: t.Value(k) == BoundAfter(ops[..i], k))
      invariant forall j :: 0 <= j < i ==> Pos(1, ops[j].0 / 8) in t.at
    {
      ghost var at0 := t.at;
      AfterMore(ops, i);
      label before:
      var _ := t.Insert(ops[i].0, ops[i].1);
      forall k: nat ensures t.Value(k) == BoundAfter(ops[..i + 1], k) {
        assert t.Value(k) == if k == ops[i].0 then ops[i].1 else old@before(t.Value(k));
        assert old@before(t.Value(k)) == BoundAfter(ops[..i], k);
      }
      t.HasPathIs(ops[i].0);
      forall j | 0 <= j < i ensures Pos(1, ops[j].0 / 8) in t.at { GrownAt(at0, t.at, Pos(1, ops[j].0 / 8)); }
      i := i + 1;
    }
    assert ops[..|ops|] == ops;
    forall j | 0 <= j < |ops| ensures t.HasPath(ops[j].0) { t.HasPathIs(ops[j].0); }
  }

  lemma AfterNone(ops: seq<(nat, int)>)
    ensures forall k :: BoundAfter(ops[..0], k) == 0
  {
  }

  lemma AfterMore(ops: seq<(nat, int)>, i: nat)
    requires i < |ops|
    ensures forall k :: BoundAfter(ops[..i + 1], k) == if k == ops[i].0 then ops[i].1 else BoundAfter(ops[..i], k)
  {
    var before := ops[..i + 1];
    assert before[..|before| - 1] == ops[..i] && before[|before| - 1] == ops[i];
    forall k: nat ensures BoundAfter(before, k) == if k == ops[i].0 then ops[i].1 else BoundAfter(ops[..i], k) {
    }
  }

  lemma AfterIs(ops: seq<(nat, int)>)
    ensures forall k :: After(ops)(k) == BoundAfter(ops, k)
  {
  }

  /** The same insertions into both forms of the tree: both scans give the same values. */
  method BothScans(ops: seq<(nat, int)>, start: nat, num: nat) returns (a: seq<int>, b: seq<int>)
    requires forall i :: 0 <= i < |ops| ==> ops[i].0 < Pow8(21)
    requires exists i :: 0 <= i < |ops| && ops[i].0 / 8 == start / 8
    requires Enough(After(ops), start, num)
    ensures a == b
    ensures exists keys :: Smallest(After(ops), start, num, keys) && |keys| == num && a == Values(After(ops), keys)
  {
    hide *;
    var t := new Tree(true);
    var u := new Tree(false);
    Replay(t, ops);
    Replay(u, ops);
    ghost var i :| 0 <= i < |ops| && ops[i].0 / 8 == start / 8;
    assert t.HasPath(ops[i].0) && u.HasPath(ops[i].0);
    t.HasPathIs(ops[i].0);
    u.HasPathIs(ops[i].0);
    t.HasPathIs(start);
    u.HasPathIs(start);
    t.ValidIsBut();
    u.ValidIsBut();
    t.ButParts(0);
    u.ButParts(0);
    PathInRange(t.nodes, t.at, t.height, t.root, start);
    PathInRange(u.nodes, u.at, u.height, u.root, start);
    ghost var f, g := BindingOf(t.nodes, t.at), BindingOf(u.nodes, u.at);
    t.ValuesAre();
    u.ValuesAre();
    AfterIs(ops);
    SameBinding(t.nodes, t.at, After(ops));
    SameBinding(u.nodes, u.at, After(ops));
    EnoughSame(After(ops), g, start, num);
    ghost var x, y;
    a, x := RangeBySiblings(t, start, num);
    b, y := RangeByClimbing(u, start, num);
    ScansAgree(f, g, start, num, x, y);
    ghost var all := EnoughHas(After(ops), start, num);
    ScansAgree(f, After(ops), start, num, x, all);
  }

  lemma PathInRange(nodes: Nodes, at: Places, height: nat, root: Ptr, key: nat)
    requires Web(nodes, at, height, root, 0) && Pos(1, key / 8) in at
    ensures key < Pow8(height)
  {
    hide *;
    WebParts(nodes, at, height, root, 0);
    NothingLeft(nodes, at, height, root, 0);
    SamePrefixes(key, height);
    PrefixZero(key, height);
  }

  lemma SameBinding(nodes: Nodes, at: Places, f: Binding)
    requires forall k :: Bound(nodes, at, k) == f(k)
    ensures forall k :: BindingOf(nodes, at)(k) == f(k)
  {
  }

  lemma EnoughHas(f: Binding, start: nat, num: nat) returns (keys: seq<nat>)
    requires Enough(f, start, num)
    ensures Smallest(f, start, num, keys) && |keys| == num
  {
    keys :| Smallest(f, start, num, keys) && |keys| == num;
  }

  lemma EnoughSame(f: Binding, g: Binding, start: nat, num: nat)
    requires Enough(f, start, num) && forall k :: f(k) == g(k)
    ensures Enough(g, start, num)
  {
    var keys :| Smallest(f, start, num, keys) && |keys| == num;
    assert Smallest(g, start, num, keys);
  }
}
