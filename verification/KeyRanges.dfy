/** Ranges of keys that the nodes of a B+-tree cover, while some nodes have been split and their parents
    do not know yet; and what leaf entries say of a map, range by range. */
module KeyRanges {
  import opened SortedPairs

  /** An address; 0 is the null pointer. */
  type Ptr = int

  /** Keys are unsigned 64-bit numbers. */
  const TOP: int := 0x1_0000_0000_0000_0000

  /** A node covers keys from lo up to, not including, hi; leaves are on level 0. */
  datatype Range = Range(lo: int, hi: int, level: nat)

  type Info = map<Ptr, Range>

  /** Nodes that were split, and the nodes split off, not yet entered into the parents. */
  type Pends = map<Ptr, Ptr>

  /** c was split off a node and its parent does not know it yet. */
  ghost predicate Hanging(pends: Pends, c: Ptr) {
    exists a :: a in pends && pends[a] == c
  }

  /** The upper bound that the parent knows. */
  ghost function ShownHi(info: Info, pends: Pends, c: Ptr): int {
    if c in pends && pends[c] in info then info[pends[c]].hi else if c in info then info[c].hi else 0
  }

  ghost function KidHi(live: seq<Pair>, hi: int, i: int): int {
    if 0 <= i < |live| - 1 then live[i + 1].key else hi
  }

  ghost predicate ListsAt(live: seq<Pair>, c: Ptr, lo: int) {
    exists i :: 0 <= i < |live| && live[i] == Pair(lo, c)
  }

  ghost predicate Apart(info: Info) {
    forall n, m :: n in info && m in info && n != m && info[n].level == info[m].level ==>
      info[n].hi <= info[m].lo || info[m].hi <= info[n].lo
  }

  ghost predicate PendsFit(info: Info, pends: Pends) {
    && (forall a :: a in pends ==>
        a in info && pends[a] in info && pends[a] !in pends && info[a].level == info[pends[a]].level
            && info[a].hi == info[pends[a]].lo)
    && (forall a, c :: a in pends && c in pends && pends[a] == pends[c] ==> a == c)
  }

  ghost predicate RootFits(info: Info, pends: Pends, root: Ptr) {
    && root in info && !Hanging(pends, root) && info[root].lo == 0 && ShownHi(info, pends, root) == TOP
    && forall n :: n in info ==> info[n].level <= info[root].level
  }

  ghost predicate LeafAgrees(live: seq<Pair>, lo: int, hi: int, abs: map<int, int>) {
    && (forall i :: 0 <= i < |live| ==> live[i].key in abs && abs[live[i].key] == live[i].tid)
    && (forall k :: lo <= k < hi && k in abs ==> HasKey(live, k))
  }

  lemma PendsParts(info: Info, pends: Pends, a: Ptr)
    requires PendsFit(info, pends) && a in pends
    ensures a in info && pends[a] in info && pends[a] !in pends && !Hanging(pends, a) && Hanging(pends, pends[a])
    ensures info[a].level == info[pends[a]].level && info[a].hi == info[pends[a]].lo
    ensures ShownHi(info, pends, a) == info[pends[a]].hi
  {
  }

  lemma PositionBehind(live: seq<Pair>, lo: int, hi: int, i: nat, key: int, next: int)
    requires Strict(live) && KeysBetween(live, lo, hi - 1) && i < |live|
      && live[i].key < key < next == KidHi(live, hi, i)
    ensures LowerBound(live, key) == i + 1 && !HasKey(live, key) && lo < key < hi
  {
    hide LowerBound;
    LowerBoundIs(live, key, i + 1);
  }

  lemma PositionFirst(live: seq<Pair>, lo: int, hi: int, key: int)
    requires Strict(live) && KeysBetween(live, lo, hi - 1) && live != [] && lo < key < live[0].key
    ensures LowerBound(live, key) == 0 && !HasKey(live, key) && key < hi
  {
    hide LowerBound;
    LowerBoundIs(live, key, 0);
  }

  lemma FewerPends(info: Info, pends: Pends, a: Ptr, root: Ptr)
    requires PendsFit(info, pends) && a in pends && a != root && RootFits(info, pends, root)
    ensures PendsFit(info, pends - {a}) && RootFits(info, pends - {a}, root)
    ensures !Hanging(pends - {a}, pends[a]) && (forall c :: Hanging(pends - {a}, c) ==> Hanging(pends, c))
    ensures forall c :: Hanging(pends, c) && c != pends[a] ==> Hanging(pends - {a}, c)
    ensures forall c :: c != a ==> ShownHi(info, pends - {a}, c) == ShownHi(info, pends, c)
    ensures ShownHi(info, pends - {a}, a) == info[a].hi
  {
    var pends' := pends - {a};
    forall c | Hanging(pends', c) ensures Hanging(pends, c) {
      var x :| x in pends' && pends'[x] == c;
      assert pends[x] == c;
    }
    forall c | Hanging(pends, c) && c != pends[a] ensures Hanging(pends', c) {
      var x :| x in pends && pends[x] == c;
      assert pends'[x] == c;
    }
  }

  lemma PutBetween(live: seq<Pair>, l: nat, e: Pair, lo: int, hi: int)
    requires l <= |live| && KeysBetween(live, lo, hi) && lo <= e.key <= hi
    ensures KeysBetween(live[..l] + [e] + live[l..], lo, hi)
  {
  }

  lemma Inserted(live: seq<Pair>, live': seq<Pair>, l: nat, e: Pair)
    requires l <= |live| && live' == live[..l] + [e] + live[l..]
    ensures |live'| == |live| + 1 && live'[l] == e && forall i ::
      0 <= i < |live'| && i != l ==> live'[i] == live[if i < l then i else i - 1]
  {
  }

  /** Upper bounds of the kids around a new one. */
  lemma InsertedHi(live: seq<Pair>, live': seq<Pair>, l: nat, e: Pair, hi: int, i: nat)
    requires l <= |live| && live' == live[..l] + [e] + live[l..] && live != [] && i < |live'|
    ensures i == l - 1 ==> KidHi(live', hi, i) == e.key
    ensures i == l && l > 0 ==> KidHi(live', hi, i) == KidHi(live, hi, l - 1)
    ensures i == l && l == 0 ==> KidHi(live', hi, i) == live[0].key
    ensures i != l && i != l - 1 ==> KidHi(live', hi, i) == KidHi(live, hi, if i < l then i else i - 1)
  {
    Inserted(live, live', l, e);
  }

  lemma NotSplitOne(live: seq<Pair>, l: nat, j: nat, alo: int, lo: int, hi: int)
    requires Strict(live) && KeysBetween(live, lo, hi) && j < |live| && l <= |live| && j != l - 1
    requires (l > 0 ==> live[l - 1].key == alo) && (l == 0 ==> alo == lo && live[0].key > lo)
    ensures live[j].key != alo
  {
  }

  lemma NotSplitFirst(live: seq<Pair>, l: nat, lo: int, alo: int)
    requires Strict(live) && 0 < l <= |live| && live[l - 1].key == alo && live[0].key > lo
    ensures alo != lo
  {
  }

  lemma UpperKeyInside(live: seq<Pair>, h: nat, lo: int, hi: int)
    requires 0 < h < |live| && Strict(live) && KeysBetween(live, lo, hi - 1)
    ensures lo < live[h].key < hi
  {
    assert live[0].key < live[h].key;
  }

  lemma HangingNew(pends: Pends, n: Ptr, m: Ptr)
    requires n !in pends
    ensures Hanging(pends[n := m], m)
    ensures forall c :: c != m ==> (Hanging(pends[n := m], c) <==> Hanging(pends, c))
  {
    assert pends[n := m][n] == m;
    forall c | c != m && Hanging(pends, c) ensures Hanging(pends[n := m], c) {
      var a :| a in pends && pends[a] == c;
      assert pends[n := m][a] == c;
    }
    forall c | c != m && Hanging(pends[n := m], c) ensures Hanging(pends, c) {
      var a :| a in pends[n := m] && pends[n := m][a] == c;
      assert pends[a] == c;
    }
  }

  lemma SplitRanges(info: Info, info': Info, pends: Pends, root: Ptr, n: Ptr, m: Ptr, key: int)
    requires Apart(info) && PendsFit(info, pends) && RootFits(info, pends, root)
    requires n in info && m !in info && n !in pends && !Hanging(pends, n) && !Hanging(pends, m) && m !in pends
      && info[n].lo < key < info[n].hi
    requires info' == info[n := info[n].(hi := key)][m := Range(key, info[n].hi, info[n].level)]
    ensures Apart(info') && PendsFit(info', pends[n := m]) && RootFits(info', pends[n := m], root)
    ensures forall c :: c in info ==> ShownHi(info', pends[n := m], c) == ShownHi(info, pends, c)
  {
    HangingNew(pends, n, m);
    forall a | a in pends ensures pends[a] != n && pends[a] != m && a != m {
      assert Hanging(pends, pends[a]);
    }
    hide Hanging;
    assert Apart(info');
    assert forall c :: c in info ==> ShownHi(info', pends[n := m], c) == ShownHi(info, pends, c);
    assert PendsFit(info', pends[n := m]);
  }

  lemma HalfBetween(live: seq<Pair>, h: nat, lo: int, hi: int)
    requires 0 < h < |live| && Strict(live) && KeysBetween(live, lo, hi)
    ensures KeysBetween(live[..h], lo, live[h].key - 1) && KeysBetween(live[h..], live[h].key, hi)
  {
  }

  lemma Halves(live: seq<Pair>, h: nat, d: int, live': seq<Pair>)
    requires 0 < h < |live| && (d == 0 || d == h) && live' == if d == 0 then live[..h] else live[h..]
    ensures |live'| == (if d == 0 then h else |live| - h) && forall i :: 0 <= i < |live'| ==> live'[i] == live[d + i]
  {
  }

  lemma HalfHi(live: seq<Pair>, h: nat, d: int, live': seq<Pair>, hi: int, i: int)
    requires 0 < h < |live| && (d == 0 || d == h) && live' == (if d == 0 then live[..h] else live[h..])
      && 0 <= i < |live'|
    ensures KidHi(live', if d == 0 then live[h].key else hi, i) == KidHi(live, hi, d + i)
  {
  }

  lemma RootLevels(info: Info, pends: Pends, root: Ptr)
    requires RootFits(info, pends, root) && root in pends && pends[root] in info
    ensures info[root].lo == 0 && info[pends[root]].hi == TOP && forall n ::
      n in info ==> info[n].level <= info[root].level
  {
  }

  lemma KeysOne(key: int, b: Ptr)
    ensures forall lo, hi :: lo <= key <= hi ==> KeysBetween([Pair(key, b)], lo, hi)
  {
  }

  lemma KidHiOne(live: seq<Pair>, hi: int)
    requires |live| == 1
    ensures KidHi(live, hi, 0) == hi
  {
  }

  lemma NewRootRanges(info: Info, info': Info, a: Ptr, b: Ptr, r: Ptr)
    requires Apart(info) && a in info && b in info && r !in info && info[a].lo == 0 && info[b].hi == TOP
      && info[b].level == info[a].level
    requires info[a].lo < info[a].hi == info[b].lo < info[b].hi
    requires forall n :: n in info ==> info[n].level <= info[a].level
    requires info' == info[r := Range(0, TOP, info[a].level + 1)]
    ensures Apart(info') && PendsFit(info', map[]) && RootFits(info', map[], r)
    ensures forall c :: !Hanging(map[], c)
    ensures forall c :: c in info ==>
      info'[c] == info[c] && (c != a ==> ShownHi(info', map[], c) == ShownHi(info, map[a := b], c))
  {
    assert Apart(info');
  }

  lemma NotHanging(a: Ptr, b: Ptr, c: Ptr)
    requires c != b
    ensures !Hanging(map[a := b], c)
  {
  }

  lemma HalvesAgree(live: seq<Pair>, h: nat, lo: int, hi: int, abs: map<int, int>)
    requires 0 < h < |live| && Strict(live) && KeysBetween(live, lo, hi - 1) && LeafAgrees(live, lo, hi, abs)
    ensures LeafAgrees(live[..h], lo, live[h].key, abs) && LeafAgrees(live[h..], live[h].key, hi, abs)
  {
    hide LeafAgrees;
    assert live[..h] == live[0..h] && live[h..] == live[h..|live|];
    PartAgrees(live, 0, h, lo, hi, lo, live[h].key, abs);
    PartAgrees(live, h, |live|, lo, hi, live[h].key, hi, abs);
  }

  lemma PartAgrees(live: seq<Pair>, a: nat, b: nat, lo: int, hi: int, lo': int, hi': int, abs: map<int, int>)
    requires LeafAgrees(live, lo, hi, abs) && a <= b <= |live| && lo <= lo' <= hi' <= hi
    requires forall i :: 0 <= i < |live| && lo' <= live[i].key < hi' ==> a <= i < b
    ensures LeafAgrees(live[a..b], lo', hi', abs)
  {
    var x := live[a..b];
    assert forall i :: 0 <= i < |x| ==> x[i] == live[a + i];
    forall k | lo' <= k < hi' && k in abs ensures HasKey(x, k) {
      assert HasKey(live, k);
      var i :| 0 <= i < |live| && live[i].key == k;
      assert x[i - a].key == k;
    }
  }

  lemma NothingPends(info: Info, c: Ptr)
    requires c in info
    ensures ShownHi(info, map[], c) == info[c].hi
  {
  }

  lemma KidCovers(live: seq<Pair>, lo: int, hi: int, i: nat, key: int)
    requires Strict(live) && KeysBetween(live, lo, hi - 1) && i < |live| && live[i].key <= key
    requires i + 1 < |live| && live[i].key != key ==> key < live[i + 1].key
    requires key < hi
    ensures live[i].key <= key < KidHi(live, hi, i)
  {
  }

  lemma FoundAt(live: seq<Pair>, key: int)
    requires Strict(live)
    ensures var l := LowerBound(live, key); HasKey(live, key) <==> l < |live| && live[l].key == key
  {
    hide LowerBound;
  }

  lemma PutAgrees(live: seq<Pair>, lo: int, hi: int, abs: map<int, int>, e: Pair)
    requires LeafAgrees(live, lo, hi, abs) && !HasKey(live, e.key) && lo <= e.key < hi
    ensures LeafAgrees(PutPair(live, e), lo, hi, abs[e.key := e.tid])
  {
    hide LowerBound;
    var l := LowerBound(live, e.key);
    var p := PutPair(live, e);
    assert forall i :: 0 <= i < |p| ==> p[i] == if i < l then live[i] else if i == l then e else live[i - 1];
    assert forall i :: 0 <= i < |live| ==> live[i].key != e.key;
    forall k | lo <= k < hi && k in abs[e.key := e.tid] ensures HasKey(p, k) {
      PutPairKeys(live, e, k);
    }
  }

  lemma PutBetweenKeys(live: seq<Pair>, lo: int, hi: int, e: Pair)
    requires KeysBetween(live, lo, hi) && lo <= e.key <= hi
    ensures KeysBetween(PutPair(live, e), lo, hi)
  {
    hide LowerBound;
    PutBetween(live, LowerBound(live, e.key), e, lo, hi);
  }

  lemma DropAgrees(live: seq<Pair>, lo: int, hi: int, abs: map<int, int>, l: nat)
    requires LeafAgrees(live, lo, hi, abs) && l < |live| && Strict(live)
    ensures LeafAgrees(live[..l] + live[l + 1..], lo, hi, abs - {live[l].key})
  {
    var d := live[..l] + live[l + 1..];
    assert forall i :: 0 <= i < |d| ==> d[i] == if i < l then live[i] else live[i + 1];
    forall k | lo <= k < hi && k in abs - {live[l].key} ensures HasKey(d, k) {
      assert HasKey(live, k);
      var i :| 0 <= i < |live| && live[i].key == k;
      assert d[if i < l then i else i - 1].key == k;
    }
  }

  lemma DropBetween(live: seq<Pair>, lo: int, hi: int, l: nat)
    requires KeysBetween(live, lo, hi) && l < |live|
    ensures KeysBetween(live[..l] + live[l + 1..], lo, hi)
  {
  }

  lemma RebindAgrees(live: seq<Pair>, lo: int, hi: int, abs: map<int, int>, l: nat, tid: int)
    requires LeafAgrees(live, lo, hi, abs) && l < |live| && Strict(live)
    ensures LeafAgrees(live[l := Pair(live[l].key, tid)], lo, hi, abs[live[l].key := tid])
  {
    var d := live[l := Pair(live[l].key, tid)];
    assert forall i :: 0 <= i < |d| ==> d[i].key == live[i].key;
    forall k | lo <= k < hi && k in abs[live[l].key := tid] ensures HasKey(d, k) {
      assert HasKey(live, k);
      var i :| 0 <= i < |live| && live[i].key == k;
      assert d[i].key == k;
    }
  }

  lemma BoundAs(live: seq<Pair>, lo: int, hi: int, abs: map<int, int>, i: int)
    requires LeafAgrees(live, lo, hi, abs) && 0 <= i < |live|
    ensures live[i].key in abs && abs[live[i].key] == live[i].tid
  {
  }

  lemma NotStored(live: seq<Pair>, lo: int, hi: int, abs: map<int, int>, key: int)
    requires LeafAgrees(live, lo, hi, abs) && key !in abs
    ensures !HasKey(live, key)
  {
  }

  lemma RootTop(info: Info, pends: Pends, root: Ptr)
    requires RootFits(info, pends, root)
    ensures root in info && forall n :: n in info ==> info[n].level <= info[root].level
  {
  }

  lemma ApartAt(info: Info, n: Ptr, m: Ptr)
    requires Apart(info) && n in info && m in info && n != m && info[n].level == info[m].level
    ensures info[n].hi <= info[m].lo || info[m].hi <= info[n].lo
  {
  }

  lemma NothingHangs(n: Ptr)
    ensures !Hanging(map[], n)
  {
  }

  lemma OnePend(a: Ptr, b: Ptr)
    ensures var pends: Pends := map[a := b]; a in pends && pends[a] == b && pends - {a} == map[]
  {
  }

  lemma TwoPends(a: Ptr, b: Ptr, n: Ptr, m: Ptr)
    requires a != n
    ensures var pends: Pends := (map[a := b])[n := m];
      a in pends && pends[a] == b && n in pends && pends[n] == m && pends - {a} == map[n := m]
  {
  }
}
