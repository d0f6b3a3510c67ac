/** Which places of a wB+-tree leaf its slots refer to, and what stands in the first one, which a lookup reads
    when there is no live entry. */
module WbPlaces {
  import opened SortedPairs
  import opened KeyRanges
  import opened WbNode

  /** The place `Append` writes to. */
  ghost predicate FirstFree(n: Node, i: int) {
    Sized(n) && 0 <= i < 7 && !Used(n, i) && forall k :: 0 <= k < i ==> Used(n, k)
  }

  lemma FirstFreeIs(n: Node, i: int)
    requires Sized(n) && 0 <= i < 7 && !Used(n, i) && forall k :: 0 <= k < i ==> Used(n, k)
    ensures FirstFree(n, i) && |n.entries| == 7
  {
  }

  /** An entry has been put into the first free place, and a slot refers to it now. */
  ghost predicate EntryPlaced(n: Node, n': Node, e: Pair) {
    Sized(n) && Sized(n') && exists i :: FirstFree(n, i) && n'.entries == n.entries[i := e] && UsedToo(n, n', i)
  }

  ghost predicate UsedToo(n: Node, n': Node, i: int)
    requires Sized(n) && Sized(n')
  {
    forall k :: Used(n', k) <==> Used(n, k) || k == i
  }

  /** The slots refer to no other places than before. */
  ghost predicate FewerUsed(n: Node, n': Node) {
    Sized(n) && Sized(n') && forall k :: Used(n', k) ==> Used(n, k)
  }

  lemma EntryPlacedIs(n: Node, loc: int, e: Pair, mid: int, temp: seq<int>)
    requires FirstFree(n, loc) && n.slot[0] < 7 && 1 <= mid <= n.slot[0] + 1
    requires |temp| == 8 && temp[0] == n.slot[0] + 1 && temp[mid] == loc
    requires forall j :: 1 <= j < mid ==> temp[j] == n.slot[j]
    requires forall j :: mid < j <= n.slot[0] + 1 ==> temp[j] == n.slot[j - 1]
    ensures EntryPlaced(n, n.(entries := n.entries[loc := e], slot := temp), e)
  {
    var n' := n.(entries := n.entries[loc := e], slot := temp);
    forall k ensures Used(n', k) <==> Used(n, k) || k == loc {
      SlotOfPlace(n, n', loc, mid, k);
    }
    assert UsedToo(n, n', loc);
  }

  lemma SlotOfPlace(n: Node, n': Node, loc: int, mid: int, k: int)
    requires Sized(n) && Sized(n') && n.slot[0] < 7 && n'.slot[0] == n.slot[0] + 1 && 1 <= mid <= n'.slot[0]
    requires n'.slot[mid] == loc && forall j :: 1 <= j < mid ==> n'.slot[j] == n.slot[j]
    requires forall j :: mid < j <= n.slot[0] + 1 ==> n'.slot[j] == n.slot[j - 1]
    ensures Used(n', k) <==> Used(n, k) || k == loc
  {
    if Used(n, k) {
      var j :| 1 <= j < n.slot[0] + 1 && n.slot[j] == k;
      if j < mid { assert n'.slot[j] == k; } else { assert n'.slot[j + 1] == k; }
    }
    if Used(n', k) && k != loc {
      var j :| 1 <= j < n'.slot[0] + 1 && n'.slot[j] == k;
      if j < mid { assert n.slot[j] == k; } else { assert n.slot[j - 1] == k; }
    }
    if k == loc { assert n'.slot[mid] == k; }
  }

  lemma FewerUsedIs(n: Node, mid: int, temp: seq<int>)
    requires Sized(n) && 1 <= mid <= n.slot[0] && |temp| == 8 && temp[0] == n.slot[0] - 1
    requires forall j :: 1 <= j < mid ==> temp[j] == n.slot[j]
    requires forall j :: mid <= j < n.slot[0] ==> temp[j] == n.slot[j + 1]
    ensures FewerUsed(n, n.(slot := temp))
  {
    var n' := n.(slot := temp);
    assert forall j :: 1 <= j <= temp[0] ==> temp[j] == if j < mid then n.slot[j] else n.slot[j + 1];
    forall k | Used(n', k) ensures Used(n, k) {
      var j :| 1 <= j < n'.slot[0] + 1 && n'.slot[j] == k;
      assert n.slot[if j < mid then j else j + 1] == k;
    }
  }

  lemma FewerUsedCut(n: Node)
    requires Sized(n) && n.slot[0] == 7
    ensures FewerUsed(n, n.(slot := n.slot[0 := 4]))
  {
    var n' := n.(slot := n.slot[0 := 4]);
    forall k | Used(n', k) ensures Used(n, k) {
      var j :| 1 <= j < n'.slot[0] + 1 && n'.slot[j] == k;
      assert n.slot[j] == k;
    }
  }

  // ---------------------------------------------------------------- the first place

  /** If the key in the first place is live at all, it is so there. */
  ghost predicate ZeroKnown(n: Node) {
    Sized(n) && (HasKey(Live(n), n.entries[0].key) ==> Used(n, 0))
  }

  lemma UsedIsLive(n: Node, i: int)
    requires Sized(n) && Used(n, i) && 0 <= i < 7
    ensures HasKey(Live(n), n.entries[i].key)
  {
    var j :| 1 <= j < n.slot[0] + 1 && n.slot[j] == i;
    assert Live(n)[j - 1] == n.entries[i];
  }

  lemma LiveIsUsed(n: Node, key: int) returns (i: int)
    requires Sized(n) && HasKey(Live(n), key)
    ensures 0 <= i < 7 && Used(n, i) && n.entries[i].key == key
  {
    var j :| 0 <= j < |Live(n)| && Live(n)[j].key == key;
    i := n.slot[j + 1];
  }

  lemma OnePlace(n: Node, i: int, k: int)
    requires NodeOk(n) && Used(n, i) && Used(n, k) && 0 <= i < 7 && 0 <= k < 7 && n.entries[i].key == n.entries[k].key
    ensures i == k
  {
    var j :| 1 <= j < n.slot[0] + 1 && n.slot[j] == i;
    var l :| 1 <= l < n.slot[0] + 1 && n.slot[l] == k;
    assert Live(n)[j - 1] == n.entries[i] && Live(n)[l - 1] == n.entries[k];
  }

  /** A new entry goes to the first place unless that is in use. */
  lemma ZeroPlaced(n: Node, n': Node, e: Pair)
    requires ZeroKnown(n) && EntryPlaced(n, n', e)
    ensures ZeroKnown(n')
    ensures n'.entries[0] == if HasKey(Live(n), n.entries[0].key) then n.entries[0] else e
  {
    var i :| FirstFree(n, i) && n'.entries == n.entries[i := e] && UsedToo(n, n', i);
    if Used(n, 0) { UsedIsLive(n, 0); }
    assert Used(n', 0);
  }

  lemma ZeroDropped(n: Node, n': Node)
    requires ZeroKnown(n) && NodeOk(n) && FewerUsed(n, n') && n'.entries == n.entries
    ensures ZeroKnown(n')
  {
    if HasKey(Live(n'), n'.entries[0].key) {
      var i := LiveIsUsed(n', n'.entries[0].key);
      UsedIsLive(n, i);
      OnePlace(n, i, 0);
    }
  }

  /** A value changes, in a place that is in use, or in the first one when no place is. */
  lemma ZeroRebound(n: Node, i: int, key: int, value: int)
    requires ZeroKnown(n) && NodeOk(n) && 0 <= i < 7 && n.entries[i].key == key
    requires Used(n, i) || (i == 0 && Live(n) == [])
    ensures var n' := n.(entries := n.entries[i := Pair(key, value)]);
      && ZeroKnown(n')
      && n'.entries[0] == if n.entries[0].key == key then Pair(key, value) else n.entries[0]
  {
    var n' := n.(entries := n.entries[i := Pair(key, value)]);
    SameUsed(n, n');
    if n.entries[0].key == key && Used(n, i) {
      UsedIsLive(n, i);
      OnePlace(n, i, 0);
    }
    if HasKey(Live(n'), n'.entries[0].key) {
      var k := LiveIsUsed(n', n'.entries[0].key);
      UsedIsLive(n, k);
    }
  }

  lemma SameUsed(n: Node, n': Node)
    requires Sized(n) && Sized(n') && n'.slot == n.slot
    ensures forall k :: Used(n', k) <==> Used(n, k)
  {
    forall k ensures Used(n', k) <==> Used(n, k) {
      if Used(n, k) {
        var j :| 1 <= j < n.slot[0] + 1 && n.slot[j] == k;
        assert n'.slot[j] == k;
      }
      if Used(n', k) {
        var j :| 1 <= j < n.slot[0] + 1 && n'.slot[j] == k;
        assert n.slot[j] == k;
      }
    }
  }

  /** Neither pointers nor flags matter. */
  lemma ZeroSame(n: Node, n': Node)
    requires n'.slot == n.slot && n'.entries == n.entries && Sized(n)
    ensures Sized(n') && Live(n') == Live(n) && (ZeroKnown(n') <==> ZeroKnown(n))
  {
    SameUsed(n, n');
  }

  /** A full leaf has been cut into itself and m: the greatest entry is the first one that was moved. */
  ghost predicate ZeroCut(n: Node, n': Node, m: Node) {
    && NodeOk(n) && |Live(n)| == 7 && FewerUsed(n, n') && n'.entries == n.entries && Live(n') == Live(n)[..4]
    && NodeOk(m) && ZeroKnown(m) && m.entries[0] == Live(n)[6] && Live(m) == Live(n)[4..]
  }

  /** Then an entry has been put into one half. */
  ghost predicate ZeroParted(n: Node, n': Node, m: Node, e: Pair) {
    && Sized(n) && |Live(n)| == 7 && Sized(n') && Sized(m)
    && (ZeroKnown(n) ==> ZeroKnown(n'))
    && (ZeroKnown(n) ==>
        n'.entries[0] == if e.key < Live(n)[4].key && !HasKey(Live(n)[..4], n.entries[0].key) then e else n.entries[0])
    && ZeroKnown(m) && m.entries[0] == Live(n)[6]
  }

  lemma ZeroPartedLeft(n: Node, n1: Node, n2: Node, m: Node, e: Pair)
    requires ZeroCut(n, n1, m) && EntryPlaced(n1, n2, e) && e.key < Live(n)[4].key
    ensures ZeroParted(n, n2, m, e)
  {
    if ZeroKnown(n) {
      ZeroDropped(n, n1);
      ZeroPlaced(n1, n2, e);
    }
  }

  lemma ZeroPartedRight(n: Node, n1: Node, m: Node, m2: Node, e: Pair)
    requires ZeroCut(n, n1, m) && EntryPlaced(m, m2, e) && e.key >= Live(n)[4].key
    ensures ZeroParted(n, n1, m2, e)
  {
    if ZeroKnown(n) { ZeroDropped(n, n1); }
    ZeroPlaced(m, m2, e);
    assert Live(n)[4..][2] == Live(n)[6];
  }

  lemma ZeroPartedAt(n: Node, n1: Node, m1: Node, n2: Node, m2: Node, lo: int, e: Pair)
    requires ZeroCut(n, n1, m1) && Live(n)[4].key == lo
    requires if e.key < lo then EntryPlaced(n1, n2, e) && m2 == m1 else EntryPlaced(m1, m2, e) && n2 == n1
    ensures ZeroParted(n, n2, m2, e)
  {
    hide ZeroParted, EntryPlaced;
    if e.key < lo {
      ZeroPartedLeft(n, n1, n2, m1, e);
    } else {
      ZeroPartedRight(n, n1, m1, m2, e);
    }
  }

  lemma ZeroPartedSame(n: Node, n1: Node, n2: Node, m1: Node, m2: Node, e: Pair)
    requires ZeroParted(n, n1, m1, e) && n2.slot == n1.slot && n2.entries == n1.entries
    requires m2.slot == m1.slot && m2.entries == m1.entries
    ensures ZeroParted(n, n2, m2, e)
  {
    ZeroSame(n1, n2);
    ZeroSame(m1, m2);
  }
}
