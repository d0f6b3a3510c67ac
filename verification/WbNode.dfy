/** A wB+-tree node: unsorted entries behind a slot array that lists the live ones in key order. */
module WbNode {
  import opened SortedPairs
  import opened KeyRanges
  import opened SetFacts

  const NODE_SIZE: nat := 7

  /** slot[0] counts the live entries; slot[1..] are their indices.  In an inner node the tid of an
      entry is a child pointer. */
  datatype Node = Node(slot: seq<int>, entries: seq<Pair>, leftmost: Ptr, parent: Ptr, isLeaf: bool)

  ghost predicate Sized(n: Node) {
    && |n.slot| == 8 && |n.entries| == 7 && 0 <= n.slot[0] <= 7
    && forall j :: 1 <= j <= n.slot[0] ==> 0 <= n.slot[j] < 7
  }

  ghost predicate Distinct(n: Node)
    requires Sized(n)
  {
    forall i, j :: 1 <= i < j <= n.slot[0] ==> n.slot[i] != n.slot[j]
  }

  /** The live entries in slot order. */
  ghost function Live(n: Node): (r: seq<Pair>)
    requires Sized(n)
    ensures |r| == n.slot[0] && forall i :: 0 <= i < |r| ==> r[i] == n.entries[n.slot[i + 1]]
  {
    seq(n.slot[0], i requires 0 <= i < n.slot[0] => n.entries[n.slot[i + 1]])
  }

  ghost predicate NodeOk(n: Node) {
    Sized(n) && Distinct(n) && Strict(Live(n))
  }

  /** Entry i is live. */
  ghost predicate Used(n: Node, i: int)
    requires Sized(n)
  {
    UsedBefore(n, i, n.slot[0] + 1)
  }

  ghost predicate UsedBefore(n: Node, i: int, c: int)
    requires Sized(n) && c <= n.slot[0] + 1
  {
    exists j :: 1 <= j < c && n.slot[j] == i
  }

  // ---------------------------------------------------------------- searching

  /** Position, from 1, of the first live entry whose key is not smaller. */
  method Search(n: Node, key: int) returns (mid: int)
    requires NodeOk(n)
    ensures mid == LowerBound(Live(n), key) + 1
  {
    hide LowerBound;
    ghost var a := Live(n);
    var low := 1;
    mid := 1;
    var high := n.slot[0];
    while low <= high
      invariant 1 <= low <= high + 1 <= n.slot[0] + 1
      invariant forall i :: 0 <= i < low - 1 ==> a[i].key < key
      invariant forall i :: high <= i < |a| ==> a[i].key > key
      invariant low <= mid || low == mid + 1
      invariant mid <= low || mid == high + 1
      invariant mid >= 1
    {
      mid := (low + high) / 2;
      assert a[mid - 1] == n.entries[n.slot[mid]];
      if n.entries[n.slot[mid]].key > key {
        high := mid - 1;
      } else if n.entries[n.slot[mid]].key < key {
        low := mid + 1;
      } else {
        break;
      }
    }
    if low > mid { mid := low; }
    LowerBoundIs(a, key, mid - 1);
  }

  // ---------------------------------------------------------------- a free entry

  /** `Append`'s scan: the least index that no live slot refers to. */
  method FreeIndex(n: Node) returns (i: int)
    requires Sized(n) && n.slot[0] < 7 && Distinct(n)
    ensures 0 <= i < 7 && !Used(n, i)
    ensures forall k :: 0 <= k < i ==> Used(n, k)
  {
    var free := seq(8, _ => true);
    var j := 1;
    while j <= n.slot[0]
      invariant 1 <= j <= n.slot[0] + 1 && |free| == 8 && free[7]
      invariant forall k :: 0 <= k < 7 ==> (free[k] <==> !UsedBefore(n, k, j))
    {
      forall k | 0 <= k < 7 ensures UsedBefore(n, k, j + 1) <==> UsedBefore(n, k, j) || n.slot[j] == k {
        if n.slot[j] == k { assert 1 <= j < j + 1; }
      }
      assert !UsedBefore(n, n.slot[j], j);
      free := free[n.slot[j] := !free[n.slot[j]]];
      j := j + 1;
    }
    SomeFree(n);
    i := 0;
    while !free[i]
      invariant 0 <= i <= 7 && forall k :: 0 <= k < i ==> !free[k]
      decreases 7 - i
    {
      i := i + 1;
    }
  }

  /** Fewer than seven slots leave one of the seven entries free. */
  lemma SomeFree(n: Node)
    requires Sized(n) && n.slot[0] < 7
    ensures exists k :: 0 <= k < 7 && !Used(n, k)
  {
    var used := set j | 1 <= j <= n.slot[0] :: n.slot[j];
    ImageSmall(n, n.slot[0]);
    var all := {0, 1, 2, 3, 4, 5, 6};
    if all <= used {
      SubsetSize(all, used);
    } else {
      var k :| k in all && k !in used;
      assert !Used(n, k);
    }
  }

  lemma {:induction false} ImageSmall(n: Node, c: nat)
    requires Sized(n) && c <= n.slot[0]
    ensures |set j | 1 <= j <= c :: n.slot[j]| <= c
    decreases c
  {
    var s := set j | 1 <= j <= c :: n.slot[j];
    if c == 0 {
      assert s == {};
    } else {
      ImageSmall(n, c - 1);
      var t := set j | 1 <= j <= c - 1 :: n.slot[j];
      assert s == t + {n.slot[c]};
    }
  }

  // ---------------------------------------------------------------- new slot arrays

  /** The slot array with `loc` at position mid. */
  method InsertSlot(slot: seq<int>, mid: int, loc: int) returns (temp: seq<int>)
    requires |slot| == 8 && 0 <= slot[0] < 7 && 1 <= mid <= slot[0] + 1
    ensures |temp| == 8 && temp[0] == slot[0] + 1 && temp[mid] == loc
    ensures forall j :: 1 <= j < mid ==> temp[j] == slot[j]
    ensures forall j :: mid < j <= slot[0] + 1 ==> temp[j] == slot[j - 1]
  {
    var junk: int := *;
    temp := seq(8, _ => junk);
    var j := slot[0];
    while j >= mid
      invariant mid - 1 <= j <= slot[0] && |temp| == 8
      invariant forall k :: j + 1 < k <= slot[0] + 1 ==> temp[k] == slot[k - 1]
    {
      temp := temp[j + 1 := slot[j]];
      j := j - 1;
    }
    temp := temp[mid := loc];
    j := mid - 1;
    while j >= 1
      invariant 0 <= j <= mid - 1 && |temp| == 8 && temp[mid] == loc
      invariant forall k :: j < k < mid ==> temp[k] == slot[k]
      invariant forall k :: mid < k <= slot[0] + 1 ==> temp[k] == slot[k - 1]
    {
      temp := temp[j := slot[j]];
      j := j - 1;
    }
    temp := temp[0 := slot[0] + 1];
  }

  /** The slot array without position mid. */
  method RemoveSlot(slot: seq<int>, mid: int) returns (temp: seq<int>)
    requires |slot| == 8 && 1 <= mid <= slot[0] <= 7
    ensures |temp| == 8 && temp[0] == slot[0] - 1
    ensures forall j :: 1 <= j < mid ==> temp[j] == slot[j]
    ensures forall j :: mid <= j < slot[0] ==> temp[j] == slot[j + 1]
  {
    var junk: int := *;
    temp := seq(8, _ => junk);
    var j := slot[0];
    while j > mid
      invariant mid <= j <= slot[0] && |temp| == 8
      invariant forall k :: j <= k < slot[0] ==> temp[k] == slot[k + 1]
    {
      temp := temp[j - 1 := slot[j]];
      j := j - 1;
    }
    j := mid - 1;
    while j >= 1
      invariant 0 <= j <= mid - 1 && |temp| == 8
      invariant forall k :: j < k < mid ==> temp[k] == slot[k]
      invariant forall k :: mid <= k < slot[0] ==> temp[k] == slot[k + 1]
    {
      temp := temp[j := slot[j]];
      j := j - 1;
    }
    temp := temp[0 := slot[0] - 1];
  }

  // ---------------------------------------------------------------- what they do to the live entries

  /** Writing a free entry does not show. */
  lemma FreeWrite(n: Node, i: int, e: Pair)
    requires NodeOk(n) && 0 <= i < 7 && !Used(n, i)
    ensures var n' := n.(entries := n.entries[i := e]); NodeOk(n') && Live(n') == Live(n)
  {
    var n' := n.(entries := n.entries[i := e]);
    assert forall j :: 1 <= j <= n.slot[0] ==> n.slot[j] != i;
    assert Live(n') == Live(n);
  }

  /** One slot store publishes an entry. */
  lemma SlotInserted(n: Node, mid: int, loc: int, temp: seq<int>, e: Pair)
    requires NodeOk(n) && n.slot[0] < 7 && 0 <= loc < 7 && !Used(n, loc) && n.entries[loc] == e
    requires !HasKey(Live(n), e.key) && mid == LowerBound(Live(n), e.key) + 1
    requires |temp| == 8 && temp[0] == n.slot[0] + 1 && temp[mid] == loc
    requires forall j :: 1 <= j < mid ==> temp[j] == n.slot[j]
    requires forall j :: mid < j <= n.slot[0] + 1 ==> temp[j] == n.slot[j - 1]
    ensures NodeOk(n.(slot := temp)) && Live(n.(slot := temp)) == PutPair(Live(n), e)
  {
    hide LowerBound;
    var n' := n.(slot := temp);
    assert forall j :: 1 <= j <= n.slot[0] ==> n.slot[j] != loc;
    assert forall j :: 1 <= j <= temp[0] ==> temp[j] == if j < mid then n.slot[j] else if j == mid then loc
        else n.slot[j - 1];
    assert Sized(n') && Distinct(n');
    LiveInserted(n, n', mid, loc, e);
    PutStrict(Live(n), e);
  }

  lemma LiveInserted(n: Node, n': Node, mid: int, loc: int, e: Pair)
    requires Sized(n) && Sized(n') && n'.entries == n.entries && 0 <= loc < 7 && n.entries[loc] == e
    requires n'.slot[0] == n.slot[0] + 1 && mid == LowerBound(Live(n), e.key) + 1 && n'.slot[mid] == loc
    requires forall j :: 1 <= j < mid ==> n'.slot[j] == n.slot[j]
    requires forall j :: mid < j <= n.slot[0] + 1 ==> n'.slot[j] == n.slot[j - 1]
    ensures Live(n') == PutPair(Live(n), e)
  {
    hide LowerBound;
    var was, a := Live(n), Live(n');
    var l := mid - 1;
    assert PutPair(was, e) == was[..l] + [e] + was[l..];
    forall i | 0 <= i < |a|
      ensures a[i] == (was[..l] + [e] + was[l..])[i]
    {
      assert a[i] == n.entries[n'.slot[i + 1]];
    }
  }

  /** One slot store withdraws an entry. */
  lemma SlotRemoved(n: Node, mid: int, temp: seq<int>)
    requires NodeOk(n) && 1 <= mid <= n.slot[0]
    requires |temp| == 8 && temp[0] == n.slot[0] - 1
    requires forall j :: 1 <= j < mid ==> temp[j] == n.slot[j]
    requires forall j :: mid <= j < n.slot[0] ==> temp[j] == n.slot[j + 1]
    ensures NodeOk(n.(slot := temp)) && Live(n.(slot := temp)) == Live(n)[..mid - 1] + Live(n)[mid..]
  {
    var n' := n.(slot := temp);
    assert forall j :: 1 <= j <= temp[0] ==> temp[j] == if j < mid then n.slot[j] else n.slot[j + 1];
    assert Sized(n') && Distinct(n');
    LiveRemoved(n, n', mid);
    WithoutStrict(Live(n), mid - 1);
  }

  lemma LiveRemoved(n: Node, n': Node, mid: int)
    requires Sized(n) && Sized(n') && n'.entries == n.entries && 1 <= mid <= n.slot[0] && n'.slot[0] == n.slot[0] - 1
    requires forall j :: 1 <= j < mid ==> n'.slot[j] == n.slot[j]
    requires forall j :: mid <= j < n.slot[0] ==> n'.slot[j] == n.slot[j + 1]
    ensures Live(n') == Live(n)[..mid - 1] + Live(n)[mid..]
  {
    var was, a := Live(n), Live(n');
    forall i | 0 <= i < |a|
      ensures a[i] == (was[..mid - 1] + was[mid..])[i]
    {
      assert a[i] == n.entries[n'.slot[i + 1]];
    }
  }

  /** Dropping the last three slots. */
  lemma SlotsDropped(n: Node)
    requires NodeOk(n) && n.slot[0] == 7
    ensures var n' := n.(slot := n.slot[0 := 4]); NodeOk(n') && Live(n') == Live(n)[..4]
  {
    var n' := n.(slot := n.slot[0 := 4]);
    assert Live(n') == Live(n)[..4];
  }
}
