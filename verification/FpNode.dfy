/** FPTree nodes: leaves keep unsorted entries under a bitmap with a fingerprint for each, inner nodes
    keep sorted arrays of keys and children. */
module FpNode {
  import opened SortedPairs
  import opened KeyRanges
  import opened FpBits

  const NUM_LN_ENTRY: nat := 63
  const NUM_IN_ENTRY: nat := 254
  /** All 63 places are taken. */
  const IS_FULL: Word := Below(63)

  /** The tid of a leaf entry stands for the value pointer. */
  datatype Node =
    | LeafNode(bitmap: Word, fingerprints: seq<int>, entries: seq<Pair>, parent: Ptr, next: Ptr)
    | InnerNode(nKeys: nat, keys: seq<int>, leftmost: Ptr, ptrs: seq<Ptr>, parent: Ptr)

  /** The fingerprint is the last byte of the key. */
  function Hash(key: int): (h: int)
    ensures 0 <= h < 256 && exists q: int :: key == q * 256 + h
  {
    assert key == (key / 256) * 256 + key % 256;
    key % 256
  }

  ghost predicate LeafSized(n: Node) {
    n.LeafNode? && |n.fingerprints| == 63 == |n.entries|
  }

  /** Set bits mark entries with distinct keys and true fingerprints; the last bit of the word is not used. */
  ghost predicate LeafOk(n: Node) {
    && LeafSized(n) && !n.bitmap[63]
    && (forall i :: 0 <= i < 63 && n.bitmap[i] ==> n.fingerprints[i] == Hash(n.entries[i].key))
    && (forall i, j :: 0 <= i < j < 63 && n.bitmap[i] && n.bitmap[j] ==> n.entries[i].key != n.entries[j].key)
  }

  ghost predicate InnerOk(n: Node) {
    n.InnerNode? && |n.keys| == 254 == |n.ptrs| && n.nKeys <= 254
  }

  /** The entries under the first k bits, in key order. */
  ghost function Marked(bitmap: Word, entries: seq<Pair>, k: nat): seq<Pair>
    requires k <= 63 == |entries|
  {
    if k == 0 then []
    else if bitmap[k - 1] then PutPair(Marked(bitmap, entries, k - 1), entries[k - 1])
    else Marked(bitmap, entries, k - 1)
  }

  /** What a node shows: its valid entries in key order, or its keys with the child right of each. */
  ghost function Live(n: Node): seq<Pair> {
    if LeafSized(n) then Marked(n.bitmap, n.entries, 63)
    else if InnerOk(n) then seq(n.nKeys, i requires 0 <= i < n.nKeys => Pair(n.keys[i], n.ptrs[i]))
    else []
  }

  ghost predicate IsMarked(bitmap: Word, entries: seq<Pair>, k: nat, e: Pair)
    requires k <= 63 == |entries|
  {
    exists i :: 0 <= i < k && bitmap[i] && entries[i] == e
  }

  // ---------------------------------------------------------------- marked entries

  lemma PutPairHas(a: seq<Pair>, e: Pair, x: Pair)
    ensures x in PutPair(a, e) <==> x in a || x == e
  {
    hide LowerBound;
    var l := LowerBound(a, e.key);
    var p := PutPair(a, e);
    assert p[l] == e;
    if x in a {
      var i :| 0 <= i < |a| && a[i] == x;
      assert p[if i < l then i else i + 1] == x;
    }
  }

  lemma {:induction false} MarkedParts(bitmap: Word, entries: seq<Pair>, k: nat)
    requires k <= 63 == |entries|
    requires forall i, j :: 0 <= i < j < 63 && bitmap[i] && bitmap[j] ==> entries[i].key != entries[j].key
    ensures var m := Marked(bitmap, entries, k);
      Strict(m) && |m| <= k && (forall e :: e in m <==> IsMarked(bitmap, entries, k, e))
    ensures (forall i :: 0 <= i < k ==> bitmap[i]) ==> |Marked(bitmap, entries, k)| == k
  {
    if k > 0 {
      MarkedParts(bitmap, entries, k - 1);
      var m, e := Marked(bitmap, entries, k - 1), entries[k - 1];
      MarkedMore(bitmap, entries, k);
      if bitmap[k - 1] {
        forall j | 0 <= j < |m| ensures m[j].key != e.key { assert m[j] in m; }
        PutStrict(m, e);
        forall x ensures x in PutPair(m, e) <==> x in m || x == e { PutPairHas(m, e, x); }
        PutPairLonger(m, e);
      }
    }
  }

  lemma PutPairLonger(a: seq<Pair>, e: Pair)
    ensures |PutPair(a, e)| == |a| + 1
  {
  }

  lemma MarkedMore(bitmap: Word, entries: seq<Pair>, k: nat)
    requires 0 < k <= 63 == |entries|
    ensures forall e :: IsMarked(bitmap, entries, k, e) <==>
      IsMarked(bitmap, entries, k - 1, e) || (bitmap[k - 1] && entries[k - 1] == e)
  {
    assert bitmap[k - 1] ==> IsMarked(bitmap, entries, k, entries[k - 1]);
  }

  /** A sequence sorted by distinct keys is determined by its elements. */
  lemma {:induction false} StrictSame(a: seq<Pair>, b: seq<Pair>)
    requires Strict(a) && Strict(b) && forall e :: e in a <==> e in b
    ensures a == b
    decreases |a|
  {
    assert a != [] ==> a[0] in b;
    assert b != [] ==> b[0] in a;
    if a != [] {
      assert a[0] == b[0];
      forall e ensures e in a[1..] <==> e in b[1..] {
        TailHas(a, e);
        TailHas(b, e);
      }
      StrictSame(a[1..], b[1..]);
      assert a == [a[0]] + a[1..] && b == [b[0]] + b[1..];
    }
  }

  lemma TailHas(a: seq<Pair>, e: Pair)
    requires Strict(a) && a != []
    ensures Strict(a[1..]) && (e in a[1..] <==> e in a && e != a[0])
  {
    assert a == [a[0]] + a[1..];
    if e in a[1..] {
      var i :| 0 <= i < |a[1..]| && a[1..][i] == e;
      assert a[i + 1] == e && a[0].key < e.key;
    }
  }

  lemma LeafParts(n: Node)
    requires LeafOk(n)
    ensures n.LeafNode? && LeafSized(n) && |n.fingerprints| == 63 == |n.entries| && !n.bitmap[63] && Strict(Live(n))
      && |Live(n)| <= 63
    ensures forall e :: e in Live(n) <==> IsMarked(n.bitmap, n.entries, 63, e)
    ensures (forall i :: 0 <= i < 63 ==> n.bitmap[i]) ==> |Live(n)| == 63
    ensures forall i :: 0 <= i < 63 && n.bitmap[i] ==>
      n.fingerprints[i] == Hash(n.entries[i].key) && n.entries[i] in Live(n)
  {
    MarkedParts(n.bitmap, n.entries, 63);
    hide Marked;
    forall i | 0 <= i < 63 && n.bitmap[i] ensures n.entries[i] in Live(n) {
      assert IsMarked(n.bitmap, n.entries, 63, n.entries[i]);
    }
  }

  /** A free place takes a new entry. */
  function EntryPut(n: Node, i: nat, e: Pair): Node
    requires n.LeafNode? && |n.fingerprints| == 63 == |n.entries| && i < 63
  {
    n.(entries := n.entries[i := e], fingerprints := n.fingerprints[i := Hash(e.key)], bitmap := n.bitmap[i := true])
  }

  lemma EntryPutLive(n: Node, i: nat, e: Pair)
    requires LeafOk(n) && i < 63 && !n.bitmap[i] && !HasKey(Live(n), e.key)
    ensures LeafOk(EntryPut(n, i, e)) && Live(EntryPut(n, i, e)) == PutPair(Live(n), e)
  {
    LeafParts(n);
    var n', live := EntryPut(n, i, e), Live(n);
    hide Live;
    forall j | 0 <= j < 63 && n.bitmap[j] ensures n.entries[j].key != e.key {
      assert n.entries[j] in live;
      var k :| 0 <= k < |live| && live[k] == n.entries[j];
    }
    assert LeafOk(n');
    LeafParts(n');
    PutStrict(live, e);
    forall x ensures x in Live(n') <==> x in PutPair(live, e) {
      PutPairHas(live, e, x);
      MarkedAfterPut(n, i, e, x);
    }
    StrictSame(Live(n'), PutPair(live, e));
  }

  lemma MarkedAfterPut(n: Node, i: nat, e: Pair, x: Pair)
    requires LeafSized(n) && i < 63 && !n.bitmap[i]
    ensures var n' := EntryPut(n, i, e);
      IsMarked(n'.bitmap, n'.entries, 63, x) <==> IsMarked(n.bitmap, n.entries, 63, x) || x == e
  {
    var n' := EntryPut(n, i, e);
    if IsMarked(n.bitmap, n.entries, 63, x) {
      var j :| 0 <= j < 63 && n.bitmap[j] && n.entries[j] == x;
      assert n'.bitmap[j] && n'.entries[j] == x;
    }
    assert n'.bitmap[i] && n'.entries[i] == e;
  }

  /** The value of a marked entry changes. */
  lemma EntryRebound(n: Node, i: nat, value: int) returns (l: nat)
    requires LeafOk(n) && i < 63 && n.bitmap[i]
    ensures var n' := n.(entries := n.entries[i := n.entries[i].(tid := value)]);
      && LeafOk(n') && l < |Live(n)| && Live(n)[l] == n.entries[i]
      && Live(n') == Live(n)[l := Pair(n.entries[i].key, value)]
  {
    LeafParts(n);
    var n', live := n.(entries := n.entries[i := n.entries[i].(tid := value)]), Live(n);
    hide Live;
    assert LeafOk(n');
    LeafParts(n');
    assert n.entries[i] in live;
    l :| 0 <= l < |live| && live[l] == n.entries[i];
    var live' := live[l := Pair(n.entries[i].key, value)];
    hide LeafOk;
    forall x ensures x in Live(n') <==> x in live' {
      MarkedAfterRebind(n, i, value, x);
      ReboundHas(live, l, value, x);
    }
    StrictSame(Live(n'), live');
  }

  lemma ReboundHas(live: seq<Pair>, l: nat, value: int, x: Pair)
    requires Strict(live) && l < |live|
    ensures Strict(live[l := Pair(live[l].key, value)])
    ensures x in live[l := Pair(live[l].key, value)] <==>
      (x in live && x.key != live[l].key) || x == Pair(live[l].key, value)
  {
    var live' := live[l := Pair(live[l].key, value)];
    assert live'[l] in live';
    if x in live && x.key != live[l].key {
      var k :| 0 <= k < |live| && live[k] == x;
      assert live'[k] == x;
    }
    if x in live' && x != live'[l] {
      var k :| 0 <= k < |live'| && live'[k] == x;
      assert live[k] == x;
    }
  }

  lemma MarkedAfterRebind(n: Node, i: nat, value: int, x: Pair)
    requires LeafOk(n) && i < 63 && n.bitmap[i]
    ensures IsMarked(n.bitmap, n.entries[i := n.entries[i].(tid := value)], 63, x) <==>
      (IsMarked(n.bitmap, n.entries, 63, x) && x.key != n.entries[i].key) || x == Pair(n.entries[i].key, value)
  {
    var es := n.entries[i := n.entries[i].(tid := value)];
    assert es[i] == Pair(n.entries[i].key, value);
    if IsMarked(n.bitmap, n.entries, 63, x) && x.key != n.entries[i].key {
      var j :| 0 <= j < 63 && n.bitmap[j] && n.entries[j] == x;
      assert es[j] == x;
    }
    if IsMarked(n.bitmap, es, 63, x) && x != es[i] {
      var j :| 0 <= j < 63 && n.bitmap[j] && es[j] == x;
      assert n.entries[j] == x;
    }
  }

  lemma EntryPutIs(n: Node, i: nat, e: Pair)
    requires LeafSized(n) && i < 63
    ensures n.LeafNode? && |n.entries| == 63 == |n.fingerprints|
    ensures EntryPut(n, i, e)
      == n.(entries := n.entries[i := e]).(fingerprints := n.fingerprints[i := Hash(e.key)])
          .(bitmap := n.bitmap[i := true])
  {
  }

  /** The next of some sorted entries goes behind those before it. */
  lemma NextPut(s: seq<Pair>, from: nat, j: nat)
    requires Strict(s) && from <= j < |s|
    ensures !HasKey(s[from..j], s[j].key) && PutPair(s[from..j], s[j]) == s[from..j + 1]
  {
    var a := s[from..j];
    LowerBoundIs(a, s[j].key, |a|);
    PutPairIs(a, s[j]);
    hide LowerBound, PutPair;
    assert a[..|a|] + [s[j]] + a[|a|..] == s[from..j + 1];
  }

  lemma EmptyLive(n: Node)
    requires n.LeafNode? && |n.fingerprints| == 63 == |n.entries| && (forall i :: 0 <= i < 63 ==> !n.bitmap[i])
    ensures Live(n) == [] && (!n.bitmap[63] ==> LeafOk(n))
  {
    EmptyMarked(n.bitmap, n.entries, 63);
  }

  lemma {:induction false} EmptyMarked(bitmap: Word, entries: seq<Pair>, k: nat)
    requires k <= 63 == |entries| && forall i :: 0 <= i < 63 ==> !bitmap[i]
    ensures Marked(bitmap, entries, k) == []
  {
    if k > 0 { EmptyMarked(bitmap, entries, k - 1); }
  }

  // ---------------------------------------------------------------- operations on one leaf

  /** A leaf with an empty bitmap; the rest is what memory held. */
  method FreshLeaf() returns (n: Node)
    ensures n.LeafNode? && |n.fingerprints| == 63 == |n.entries| && forall i :: 0 <= i < 64 ==> !n.bitmap[i]
  {
    var fingerprints, entries := new int[63], new Pair[63];
    var parent: Ptr, next: Ptr := *, *;
    n := LeafNode(seq(64, _ => false), fingerprints[..], entries[..], parent, next);
  }

  /** The loop of `Lookup` and `Update`: a valid entry with the key, tested by fingerprint first; 63 if there
      is none. */
  method FindInLeaf(n: Node, key: int) returns (loc: nat)
    requires LeafOk(n)
    ensures loc <= 63 && n.LeafNode? && |n.entries| == 63
    ensures loc < 63 ==> n.bitmap[loc] && n.entries[loc].key == key && n.entries[loc] in Live(n)
    ensures loc == 63 ==> !HasKey(Live(n), key)
  {
    LeafParts(n);
    hide *;
    loc := 0;
    while loc < 63
      invariant loc <= 63 && forall i :: 0 <= i < loc && n.bitmap[i] ==> n.entries[i].key != key
    {
      ghost var was := loc;
      loc := FindNextBit([n.bitmap], 63, loc);
      NextIs(n.bitmap, was, true, loc);
      if loc == 63 { break; }
      if n.fingerprints[loc] == Hash(key) && n.entries[loc].key == key { return; }
      loc := loc + 1;
    }
    NowhereInLeaf(n, key);
  }

  lemma NextIs(bitmap: Word, offset: nat, value: bool, r: nat)
    requires IsNext([bitmap], 63, offset, value, r) && offset < 63
    ensures offset <= r <= 63 && (r < 63 ==> bitmap[r] == value) && forall i :: offset <= i < r ==> bitmap[i] != value
  {
    assert forall i :: 0 <= i < 64 ==> Bit([bitmap], i) == bitmap[i];
  }

  lemma NowhereInLeaf(n: Node, key: int)
    requires LeafOk(n) && forall i :: 0 <= i < 63 && n.bitmap[i] ==> n.entries[i].key != key
    ensures !HasKey(Live(n), key)
  {
    LeafParts(n);
    hide Live, LeafOk;
    forall k | 0 <= k < |Live(n)| ensures Live(n)[k].key != key { assert Live(n)[k] in Live(n); }
  }

  /** `allocINode`: no keys; the rest is what memory held. */
  method FreshInner() returns (n: Node)
    ensures n.InnerNode? && InnerOk(n) && n.nKeys == 0
  {
    var keys, ptrs := new int[254], new Ptr[254];
    var leftmost: Ptr, parent: Ptr := *, *;
    n := InnerNode(0, keys[..], leftmost, ptrs[..], parent);
  }

  /** The first free place of a leaf, 63 if there is none. */
  method FreePlace(bitmap: Word) returns (index: nat)
    ensures index <= 63 && (index < 63 ==> !bitmap[index]) && forall i :: 0 <= i < index ==> bitmap[i]
  {
    index := FindNextZeroBit([bitmap], 63, 0);
    NextIs(bitmap, 0, false, index);
  }

  // ---------------------------------------------------------------- sorting

  method InsertionSort(base: array<Pair>, num: nat)
    requires num <= base.Length
    modifies base
    ensures Sorted(base[..num]) && multiset(base[..num]) == multiset(old(base[..num]))
    ensures base[num..] == old(base[num..])
  {
    ghost var was := base[..];
    SortStart(was, num);
    hide *;
    var i := 1;
    while i < num
      invariant 1 <= i && (num > 0 ==> i <= num && SortedUpTo(base[..], i))
      invariant Permuted(was, base[..], num)
    {
      var j := i;
      SortedStart(base[..], i);
      while j > 0 && base[j - 1].key > base[j].key
        invariant 0 <= j <= i < num
        invariant SortedBut(base[..], i, j) && Permuted(was, base[..], num)
      {
        ghost var before := base[..];
        base[j - 1], base[j] := base[j], base[j - 1];
        assert base[..] == before[j - 1 := before[j]][j := before[j - 1]];
        Swapped(was, before, base[..], num, j);
        SortedSwap(before, base[..], i, j);
        j := j - 1;
      }
      SortedInserted(base[..], i, j);
      i := i + 1;
    }
    SortDone(was, base[..], num);
    assert base[..num] == base[..][..num] && base[num..] == base[..][num..];
    assert was[..num] == old(base[..num]) && was[num..] == old(base[num..]);
  }

  /** The first num entries have changed places. */
  ghost predicate Permuted(a: seq<Pair>, b: seq<Pair>, num: nat) {
    num <= |a| == |b| && multiset(b[..num]) == multiset(a[..num]) && b[num..] == a[num..]
  }

  lemma SortStart(a: seq<Pair>, num: nat)
    requires num <= |a|
    ensures Permuted(a, a, num) && (num > 0 ==> SortedUpTo(a, 1))
  {
  }

  lemma SortDone(a: seq<Pair>, b: seq<Pair>, num: nat)
    requires Permuted(a, b, num) && (num > 0 ==> SortedUpTo(b, num))
    ensures num <= |a| == |b| && Sorted(b[..num]) && multiset(b[..num]) == multiset(a[..num]) && b[num..] == a[num..]
  {
  }

  ghost predicate SortedUpTo(a: seq<Pair>, i: nat) {
    i <= |a| && forall x, y :: 0 <= x <= y < i ==> a[x].key <= a[y].key
  }

  /** Entries up to i are sorted except for entry j, which is smaller than those behind it. */
  ghost predicate SortedBut(a: seq<Pair>, i: nat, j: nat) {
    && j <= i < |a|
    && (forall x, y :: 0 <= x <= y <= i && x != j && y != j ==> a[x].key <= a[y].key)
    && (forall y :: j < y <= i ==> a[j].key < a[y].key)
  }

  lemma SortedStart(a: seq<Pair>, i: nat)
    requires SortedUpTo(a, i) && i < |a|
    ensures SortedBut(a, i, i)
  {
  }

  lemma Swapped(was: seq<Pair>, a: seq<Pair>, b: seq<Pair>, num: nat, j: nat)
    requires Permuted(was, a, num) && 0 < j < num <= |a| && b == a[j - 1 := a[j]][j := a[j - 1]]
    ensures Permuted(was, b, num)
  {
    assert a[..num] == a[..j - 1] + [a[j - 1], a[j]] + a[j + 1..num];
    assert b[..num] == a[..j - 1] + [a[j], a[j - 1]] + a[j + 1..num];
    assert b[num..] == a[num..];
  }

  lemma SortedSwap(a: seq<Pair>, b: seq<Pair>, i: nat, j: nat)
    requires SortedBut(a, i, j) && 0 < j && a[j - 1].key > a[j].key && b == a[j - 1 := a[j]][j := a[j - 1]]
    ensures SortedBut(b, i, j - 1)
  {
  }

  lemma SortedInserted(a: seq<Pair>, i: nat, j: nat)
    requires SortedBut(a, i, j) && (j > 0 ==> a[j - 1].key <= a[j].key)
    ensures SortedUpTo(a, i + 1)
  {
  }

  ghost predicate DistinctKeys(a: seq<Pair>) {
    forall i, j :: 0 <= i < j < |a| ==> a[i].key != a[j].key
  }

  /** A sorted permutation of entries with distinct keys. */
  lemma SortedIsStrict(s: seq<Pair>, t: seq<Pair>)
    requires Sorted(s) && multiset(s) == multiset(t) && DistinctKeys(t)
    ensures Strict(s) && forall e :: e in s <==> e in t
  {
    forall e ensures e in s <==> e in t {
      assert e in multiset(s) <==> e in multiset(t);
    }
    forall i, j | 0 <= i < j < |s| ensures s[i].key != s[j].key {
      assert s[i] in t && s[j] in t;
      if s[i] == s[j] {
        Twice(s, i, j);
        Once(t, s[i]);
      }
    }
  }

  lemma Twice(s: seq<Pair>, i: nat, j: nat)
    requires i < j < |s| && s[i] == s[j]
    ensures multiset(s)[s[i]] >= 2
  {
    assert s == s[..i] + [s[i]] + s[i + 1..j] + [s[j]] + s[j + 1..];
  }

  lemma {:induction false} Once(t: seq<Pair>, e: Pair)
    requires DistinctKeys(t)
    ensures multiset(t)[e] <= 1
    decreases |t|
  {
    if t != [] {
      assert t == [t[0]] + t[1..];
      Once(t[1..], e);
      if e == t[0] {
        assert e !in t[1..];
        assert e !in multiset(t[1..]);
      }
    }
  }

  // ---------------------------------------------------------------- gathering a leaf

  /** s holds the valid entries of the first loc places. */
  ghost predicate Gathered(n: Node, loc: nat, s: seq<Pair>) {
    && LeafSized(n) && loc <= 63 && DistinctKeys(s)
    && (forall e :: e in s <==> IsMarked(n.bitmap, n.entries, loc, e))
  }

  lemma NothingGathered(n: Node, s: seq<Pair>)
    requires LeafOk(n) && s == []
    ensures Gathered(n, 0, s)
  {
  }

  lemma GatheredSkip(n: Node, loc: nat, loc': nat, s: seq<Pair>)
    requires Gathered(n, loc, s) && n.LeafNode? && loc <= loc' <= 63 && forall i :: loc <= i < loc' ==> !n.bitmap[i]
    ensures Gathered(n, loc', s)
  {
    forall e ensures IsMarked(n.bitmap, n.entries, loc, e) <==> IsMarked(n.bitmap, n.entries, loc', e) {}
  }

  lemma GatheredMore(n: Node, loc: nat, s: seq<Pair>)
    requires LeafOk(n) && n.LeafNode? && |n.entries| == 63 && Gathered(n, loc, s) && loc < 63 && n.bitmap[loc]
    ensures Gathered(n, loc + 1, s + [n.entries[loc]])
  {
    var e := n.entries[loc];
    forall i | 0 <= i < |s| ensures s[i].key != e.key {
      assert s[i] in s;
      var j :| 0 <= j < loc && n.bitmap[j] && n.entries[j] == s[i];
    }
    forall x ensures x in s + [e] <==> IsMarked(n.bitmap, n.entries, loc + 1, x) {
      MarkedMore(n.bitmap, n.entries, loc + 1);
    }
  }

  lemma GatheredSorted(n: Node, found: seq<Pair>, s: seq<Pair>)
    requires LeafOk(n) && Gathered(n, 63, found) && Sorted(s) && multiset(s) == multiset(found)
    ensures s == Live(n)
  {
    LeafParts(n);
    SortedIsStrict(s, found);
    hide Live, LeafOk;
    StrictSame(s, Live(n));
  }

  // ---------------------------------------------------------------- full leaves

  lemma FullDistinct(n: Node)
    requires LeafOk(n) && forall i :: 0 <= i < 63 ==> n.bitmap[i]
    ensures DistinctKeys(n.entries)
  {
    hide Live;
  }

  /** A full leaf shows its entries, sorted. */
  lemma FullSorted(n: Node, s: seq<Pair>)
    requires LeafOk(n) && forall i :: 0 <= i < 63 ==> n.bitmap[i]
    requires Sorted(s) && multiset(s) == multiset(n.entries)
    ensures s == Live(n) && Strict(s)
  {
    LeafParts(n);
    FullDistinct(n);
    SortedIsStrict(s, n.entries);
    hide Live, LeafOk;
    forall e ensures e in s <==> e in Live(n) {
      if e in n.entries {
        var i :| 0 <= i < |n.entries| && n.entries[i] == e;
        assert n.bitmap[i];
      }
    }
    StrictSame(s, Live(n));
  }

  lemma FullIs(n: Node)
    requires LeafOk(n)
    ensures n.LeafNode? && (n.bitmap == IS_FULL <==> forall i :: 0 <= i < 63 ==> n.bitmap[i])
  {
    if forall i :: 0 <= i < 63 ==> n.bitmap[i] { assert n.bitmap == IS_FULL; }
  }

  lemma NotAllSet(n: Node)
    requires LeafOk(n) && !forall i :: 0 <= i < 63 ==> n.bitmap[i]
    ensures |Live(n)| < 63
  {
    var i :| 0 <= i < 63 && !n.bitmap[i];
    FewerMarked(n.bitmap, n.entries, i, 63);
  }

  lemma {:induction false} FewerMarked(bitmap: Word, entries: seq<Pair>, i: nat, k: nat)
    requires k <= 63 == |entries| && i < 63 && !bitmap[i]
    ensures |Marked(bitmap, entries, k)| <= k && (i < k ==> |Marked(bitmap, entries, k)| < k)
  {
    if k > 0 {
      FewerMarked(bitmap, entries, i, k - 1);
      if bitmap[k - 1] { PutPairLonger(Marked(bitmap, entries, k - 1), entries[k - 1]); }
    }
  }

  lemma HasRoom(n: Node)
    requires LeafOk(n) && |Live(n)| < 63
    ensures exists i :: 0 <= i < 63 && !n.bitmap[i]
  {
    LeafParts(n);
  }

  lemma Cleared(n: Node)
    requires LeafOk(n)
    ensures n.LeafNode? && LeafOk(n.(bitmap := seq(64, _ => false)))
  {
  }

  lemma NextSet(n: Node, next: Ptr)
    requires LeafOk(n)
    ensures n.LeafNode? && LeafOk(n.(next := next)) && Live(n.(next := next)) == Live(n)
  {
  }

  // ---------------------------------------------------------------- inner nodes

  lemma InnerLive(n: Node)
    requires InnerOk(n)
    ensures n.InnerNode? && |n.keys| == 254 == |n.ptrs| && n.nKeys <= 254
    ensures |Live(n)| == n.nKeys && forall i :: 0 <= i < n.nKeys ==> Live(n)[i] == Pair(n.keys[i], n.ptrs[i])
  {
  }

  /** Binary search for a key, or for the place where it belongs. */
  method Search(n: Node, key: int) returns (mid: int)
    requires InnerOk(n) && Strict(Live(n))
    ensures mid == LowerBound(Live(n), key)
  {
    InnerLive(n);
    ghost var live := Live(n);
    hide Live;
    var low, high: int := 0, n.nKeys - 1;
    mid := 0;
    while low <= high
      invariant 0 <= low <= high + 1 <= n.nKeys
      invariant forall i :: 0 <= i < low ==> n.keys[i] < key
      invariant forall i :: high < i < n.nKeys ==> n.keys[i] > key
      invariant low <= high || mid == low || mid == low - 1
      invariant 0 <= mid
    {
      mid := (low + high) / 2;
      if n.keys[mid] > key {
        high := mid - 1;
      } else if n.keys[mid] < key {
        low := mid + 1;
      } else {
        break;
      }
    }
    if low > mid { mid := low; }
    LowerBoundIs(live, key, mid);
  }

  /** `insert_in_inner`: shift the larger keys and their children, and put the new ones. */
  method InsertInInner(n: Node, key: int, child: Ptr) returns (n': Node)
    requires InnerOk(n) && Strict(Live(n)) && n.nKeys < 254
    ensures InnerOk(n') && Live(n') == PutPair(Live(n), Pair(key, child))
    ensures n' == n.(nKeys := n.nKeys + 1, keys := n'.keys, ptrs := n'.ptrs)
  {
    var mid := Search(n, key);
    InnerLive(n);
    PutPairIs(Live(n), Pair(key, child));
    LowerBoundKept(Live(n), key);
    hide *;
    var keys, ptrs, j: int := n.keys, n.ptrs, n.nKeys - 1;
    NotShifted(n.keys, n.nKeys);
    NotShifted(n.ptrs, n.nKeys);
    while j >= mid
      invariant mid - 1 <= j < n.nKeys && |keys| == 254 == |ptrs|
      invariant Shifted(n.keys, keys, n.nKeys, j) && Shifted(n.ptrs, ptrs, n.nKeys, j)
    {
      ShiftedMore(n.keys, keys, n.nKeys, j);
      keys := keys[j + 1 := keys[j]];
      ShiftedMore(n.ptrs, ptrs, n.nKeys, j);
      ptrs := ptrs[j + 1 := ptrs[j]];
      j := j - 1;
    }
    ShiftedParts(n.keys, keys, n.nKeys, j);
    ShiftedParts(n.ptrs, ptrs, n.nKeys, j);
    keys, ptrs := keys[mid := key], ptrs[mid := child];
    n' := n.(keys := keys, ptrs := ptrs, nKeys := n.nKeys + 1);
    InnerIs(n');
    InnerPut(n, n', mid, key, child);
  }

  /** The elements from j + 1 up to num have moved one place up. */
  ghost predicate Shifted(s: seq<int>, t: seq<int>, num: nat, j: int) {
    && |t| == |s| && -1 <= j < num < |s|
    && (forall k :: 0 <= k <= j ==> t[k] == s[k])
    && (forall k :: j + 1 < k <= num ==> t[k] == s[k - 1])
  }

  lemma NotShifted(s: seq<int>, num: nat)
    requires num < |s|
    ensures Shifted(s, s, num, num - 1)
  {
  }

  lemma ShiftedMore(s: seq<int>, t: seq<int>, num: nat, j: nat)
    requires Shifted(s, t, num, j) && j + 1 < |t|
    ensures Shifted(s, t[j + 1 := t[j]], num, j - 1)
  {
  }

  lemma ShiftedParts(s: seq<int>, t: seq<int>, num: nat, j: int)
    requires Shifted(s, t, num, j)
    ensures |t| == |s| && -1 <= j < num < |s|
    ensures forall k :: 0 <= k <= j ==> t[k] == s[k]
    ensures forall k :: j + 1 < k <= num ==> t[k] == s[k - 1]
  {
  }

  lemma InnerIs(n: Node)
    requires n.InnerNode? && |n.keys| == 254 == |n.ptrs| && n.nKeys <= 254
    ensures InnerOk(n)
  {
  }

  lemma InnerPut(n: Node, n': Node, mid: nat, key: int, child: Ptr)
    requires InnerOk(n) && InnerOk(n') && n'.nKeys == n.nKeys + 1 && mid <= n.nKeys && n'.keys[mid] == key
      && n'.ptrs[mid] == child
    requires forall k :: 0 <= k < mid ==> n'.keys[k] == n.keys[k] && n'.ptrs[k] == n.ptrs[k]
    requires forall k :: mid < k <= n.nKeys ==> n'.keys[k] == n.keys[k - 1] && n'.ptrs[k] == n.ptrs[k - 1]
    ensures |Live(n)| == n.nKeys && Live(n') == Live(n)[..mid] + [Pair(key, child)] + Live(n)[mid..]
  {
    InnerLive(n);
    InnerLive(n');
    hide Live;
  }

  lemma LowerBoundKept(a: seq<Pair>, key: int)
    ensures LowerBound(a, key) <= |a|
  {
  }
}
