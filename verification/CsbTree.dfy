/** The CSB+-tree: insertion with group copies and splits, search and lazy deletion. */
module CsbTree {
  import opened SortedPairs
  import opened CsbShape
  import opened CsbGrowth
  import opened CsbCells
  import opened CsbLinks
  import opened CsbSteps
  import opened CsbNodeSteps
  import opened CsbLeaves
  import opened CsbLevels

  // ---------------------------------------------------------------- arrays inside a node

  /** Number of leading entries with a smaller key, by binary search. */
  method FindEntry(entries: seq<Pair>, num: nat, key: int) returns (l: nat)
    requires num <= |entries| && Sorted(entries[..num])
    ensures l == LowerBound(entries[..num], key)
  {
    l := 0;
    var h: int := num - 1;
    ghost var es := entries[..num];
    while l <= h
      invariant 0 <= l <= h + 1 <= num
      invariant forall i :: 0 <= i < l ==> es[i].key < key
      invariant forall i :: h < i < num ==> key <= es[i].key
    {
      var m := (l + h) / 2;
      assert entries[m] == es[m];
      if key <= entries[m].key { h := m - 1; } else { l := m + 1; }
    }
    LowerBoundIs(es, key, l);
  }

  /** The kid to follow, by binary search. */
  method FindKid(keys: seq<int>, num: nat, key: int) returns (l: nat)
    requires num <= |keys|
    requires forall i, j :: 0 <= i <= j < num ==> keys[i] <= keys[j]
    ensures l == KeyIndex(keys[..num], key)
  {
    l := 0;
    var h: int := num - 1;
    while l <= h
      invariant 0 <= l <= h + 1 <= num
      invariant forall i :: 0 <= i < l ==> keys[i] < key
      invariant forall i :: h < i < num ==> key <= keys[i]
    {
      var m := (l + h) / 2;
      if key <= keys[m] { h := m - 1; } else { l := m + 1; }
    }
    KeyIndexIs(keys[..num], key, l);
  }

  /** Put x at index l of an array of which num elements are in use. */
  method OpenSlot<T>(s: seq<T>, num: nat, l: nat, x: T) returns (r: seq<T>)
    requires l <= num < |s|
    ensures |r| == |s| && r[..num + 1] == Gap(s[..num], l, x)
  {
    r := s;
    var i := num;
    while i > l
      invariant l <= i <= num && |r| == |s|
      invariant forall k :: 0 <= k <= i && k < num ==> r[k] == s[k]
      invariant forall k :: i < k <= num ==> r[k] == s[k - 1]
    {
      r := r[i := r[i - 1]];
      i := i - 1;
    }
    r := r[l := x];
  }

  /** Put x at index l of a full array, moving the upper half of the elements to a second array. */
  method SpillOver<T>(s: seq<T>, spare: seq<T>, l: nat, x: T) returns (lower: seq<T>, upper: seq<T>)
    requires |s| == |spare| && |s| % 2 == 0 && |s| >= 2 && l <= |s|
    ensures |lower| == |upper| == |s|
    ensures lower[..|s| / 2 + 1] == Gap(s, l, x)[..|s| / 2 + 1]
    ensures upper[..|s| / 2] == Gap(s, l, x)[|s| / 2 + 1..]
  {
    lower, upper := s, spare;
    var half := |s| / 2;
    ghost var all := Gap(s, l, x);
    if l > half {
      var i: int, j: int := half - 1, |s| - 1;
      while i >= 0
        invariant -1 <= i < half && |upper| == |s|
        invariant j == if i >= l - half - 1 then half + i else half + i + 1
        invariant forall k :: i < k < half ==> upper[k] == all[half + 1 + k]
      {
        if i == l - half - 1 {
          upper := upper[i := x];
        } else {
          upper := upper[i := lower[j]];
          j := j - 1;
        }
        i := i - 1;
      }
    } else {
      var i: int := half - 1;
      while i >= 0
        invariant -1 <= i < half && |upper| == |s|
        invariant forall k :: i < k < half ==> upper[k] == s[half + k]
      {
        upper := upper[i := lower[i + half]];
        i := i - 1;
      }
      i := half;
      while i > l
        invariant l <= i <= half && |lower| == |s|
        invariant forall k :: 0 <= k <= i ==> lower[k] == s[k]
        invariant forall k :: i < k <= half ==> lower[k] == s[k - 1]
      {
        lower := lower[i := lower[i - 1]];
        i := i - 1;
      }
      lower := lower[l := x];
    }
  }

  /** A map that changed at most at the addresses from start up to end. */
  ghost predicate KeptOutside<T>(m: map<Ptr, T>, m': map<Ptr, T>, start: Ptr, end: Ptr) {
    m'.Keys == m.Keys && forall p :: p in m && !(start <= p < end) ==> m'[p] == m[p]
  }

  lemma KeptSelf<T>(m: map<Ptr, T>, start: Ptr, end: Ptr)
    ensures KeptOutside(m, m, start, end)
  {
  }

  lemma KeptPut<T>(m: map<Ptr, T>, m': map<Ptr, T>, start: Ptr, end: Ptr, p: Ptr, v: T)
    requires KeptOutside(m, m', start, end) && p in m && start <= p < end
    ensures KeptOutside(m, m'[p := v], start, end)
  {
  }

  lemma KeptAt<T>(m: map<Ptr, T>, m': map<Ptr, T>, start: Ptr, end: Ptr, p: Ptr)
    requires KeptOutside(m, m', start, end)
    ensures p in m && !(start <= p < end) ==> p in m' && m'[p] == m[p]
  {
  }

  /** Leaves 0 to n of a group are linked one after the other. */
  ghost predicate InnerLinks(next: Links, prev: Links, group: Ptr, n: nat) {
    && (forall k :: 0 < k <= n ==> Slot(group, k) in prev && prev[Slot(group, k)] == Slot(group, k - 1))
    && (forall k :: 0 <= k < n ==> Slot(group, k) in next && next[Slot(group, k)] == Slot(group, k + 1))
  }

  lemma NoInnerLinks(next: Links, prev: Links, group: Ptr)
    ensures InnerLinks(next, prev, group, 0)
  {
  }

  lemma InnerLinksMore(next: Links, prev: Links, group: Ptr, i: nat)
    requires i > 0 && InnerLinks(next, prev, group, i - 1)
    ensures InnerLinks(next[Slot(group, i - 1) := Slot(group, i)], prev[Slot(group, i) := Slot(group, i - 1)], group, i)
  {
  }

  lemma InnerLinksAre(next: Links, prev: Links, group: Ptr, n: nat)
    requires InnerLinks(next, prev, group, n)
    ensures forall k :: 0 < k <= n ==> Slot(group, k) in prev && prev[Slot(group, k)] == Slot(group, k - 1)
    ensures forall k :: 0 <= k < n ==> Slot(group, k) in next && next[Slot(group, k)] == Slot(group, k + 1)
  {
  }

  class Index {
    var root: Ptr
    var mem: Memory
    /** The link fields of leaves; unused in inner nodes. */
    var next: Links
    var prev: Links
    /** The first cell never handed out. */
    var brk: Ptr
    ghost var tree: Tree
    ghost var height: nat

    ghost predicate MemOk()
      reads this`mem, this`next, this`prev, this`brk
    {
      brk > 0 && next.Keys == mem.Keys && prev.Keys == mem.Keys && forall p :: p in mem ==> 0 < p < brk
    }

    lemma MemFacts()
      requires MemOk()
      ensures brk > 0 && next.Keys == mem.Keys && prev.Keys == mem.Keys
      ensures forall p :: p in mem ==> 0 < p < brk
    {
    }

    /** Hand out n cells with unknown contents. */
    method Alloc(n: nat) returns (p: Ptr)
      requires MemOk()
      modifies this`mem, this`next, this`prev, this`brk
      ensures MemOk() && p == old(brk) && brk == p + n
      ensures mem.Keys == old(mem.Keys) + Between(p, brk)
      ensures forall q :: q in old(mem) ==> mem[q] == old(mem[q]) && next[q] == old(next[q]) && prev[q] == old(prev[q])
      ensures forall j :: 0 <= j < n ==> Slot(p, j) in mem
    {
      p := brk;
      brk := brk + n;
      var cell: Cell := *;
      var link: Ptr := *;
      var cells := Between(p, p + n);
      mem := mem + map q | q in cells :: cell;
      next := next + map q | q in cells :: link;
      prev := prev + map q | q in cells :: link;
    }

    /** Struct assignment. */
    method Copy(to: Ptr, from: Ptr, ghost m0: Memory, ghost n0: Links, ghost p0: Links, ghost start: Ptr,
                ghost end: Ptr)
      requires from in mem && next.Keys == mem.Keys && prev.Keys == mem.Keys
      requires KeptOutside(m0, mem, start, end) && KeptOutside(n0, next, start, end)
        && KeptOutside(p0, prev, start, end)
      requires start <= to < end && to in mem
      modifies this`mem, this`next, this`prev
      ensures mem == old(mem)[to := old(mem[from])]
      ensures next == old(next)[to := old(next[from])]
      ensures prev == old(prev)[to := old(prev[from])]
      ensures next.Keys == mem.Keys && prev.Keys == mem.Keys && mem.Keys == old(mem.Keys)
      ensures KeptOutside(m0, mem, start, end) && KeptOutside(n0, next, start, end) && KeptOutside(p0, prev, start, end)
    {
      mem := mem[to := mem[from]];
      next := next[to := next[from]];
      prev := prev[to := prev[from]];
    }

    // -------------------------------------------------------------- making room in a node group

    /** Copy n cells to cells beyond them. */
    method CopyCells(to: Ptr, from: Ptr, n: nat)
      requires next.Keys == mem.Keys && prev.Keys == mem.Keys && from + n <= to
      requires forall j :: 0 <= j < n ==> Slot(from, j) in mem && Slot(to, j) in mem
      modifies this`mem, this`next, this`prev
      ensures KeptOutside(old(mem), mem, to, to + n)
      ensures KeptOutside(old(next), next, to, to + n)
      ensures KeptOutside(old(prev), prev, to, to + n)
      ensures mem.Keys == old(mem.Keys)
      ensures forall j :: 0 <= j < n ==> mem[Slot(to, j)] == old(mem)[Slot(from, j)]
    {
      KeptSelf(mem, to, to + n);
      KeptSelf(next, to, to + n);
      KeptSelf(prev, to, to + n);
      hide KeptOutside;
      var j := 0;
      while j < n
        invariant j <= n && mem.Keys == old(mem.Keys) && next.Keys == mem.Keys && prev.Keys == mem.Keys
        invariant KeptOutside(old(mem), mem, to, to + n)
        invariant KeptOutside(old(next), next, to, to + n)
        invariant KeptOutside(old(prev), prev, to, to + n)
        invariant forall k :: 0 <= k < j ==> mem[Slot(to, k)] == old(mem)[Slot(from, k)]
      {
        KeptAt(old(mem), mem, to, to + n, Slot(from, j));
        Copy(Slot(to, j), Slot(from, j), old(mem), old(next), old(prev), to, to + n);
        j := j + 1;
      }
    }

    /** Fill a new group from an old one, leaving a gap behind kid i. */
    method CopyWithGap(oldGroup: Ptr, newGroup: Ptr, n: nat, i: nat)
      requires next.Keys == mem.Keys && prev.Keys == mem.Keys && i < n && oldGroup + n <= newGroup
      requires forall j :: 0 <= j < n ==> Slot(oldGroup, j) in mem
      requires forall j :: 0 <= j <= n ==> Slot(newGroup, j) in mem
      modifies this`mem, this`next, this`prev
      ensures KeptOutside(old(mem), mem, newGroup, newGroup + n + 1)
      ensures KeptOutside(old(next), next, newGroup, newGroup + n + 1)
      ensures KeptOutside(old(prev), prev, newGroup, newGroup + n + 1)
      ensures mem.Keys == old(mem.Keys)
      ensures forall j :: 0 <= j <= n && j != i + 1 ==> mem[Slot(newGroup, j)] == old(mem)[Slot(oldGroup, Source(i, j))]
    {
      CopyCells(newGroup, oldGroup, i + 1);
      var from, to := Slot(oldGroup, i + 1), Slot(newGroup, i + 2);
      forall j | 0 <= j < n - i - 1
        ensures Slot(from, j) in mem && Slot(to, j) in mem
      {
        assert Slot(from, j) == Slot(oldGroup, i + 1 + j) && Slot(to, j) == Slot(newGroup, i + 2 + j);
      }
      CopyCells(to, from, n - i - 1);
      forall j | 0 <= j <= n && j != i + 1
        ensures mem[Slot(newGroup, j)] == old(mem)[Slot(oldGroup, Source(i, j))]
      {
        if j > i { assert Slot(newGroup, j) == Slot(to, j - i - 2) && Slot(oldGroup, j - 1) == Slot(from, j - i - 2); }
      }
    }

    /** Fill a new group of eight with the upper half of a full group of fifteen, when the gap
        behind kid i falls into that half. */
    method MoveUpperHalf(oldGroup: Ptr, newGroup: Ptr, i: nat)
      requires next.Keys == mem.Keys && prev.Keys == mem.Keys && 7 <= i < 15 && oldGroup + 15 <= newGroup
      requires forall j :: 0 <= j < 15 ==> Slot(oldGroup, j) in mem
      requires forall j :: 0 <= j < 8 ==> Slot(newGroup, j) in mem
      modifies this`mem, this`next, this`prev
      ensures KeptOutside(old(mem), mem, newGroup, newGroup + 8)
      ensures KeptOutside(old(next), next, newGroup, newGroup + 8)
      ensures KeptOutside(old(prev), prev, newGroup, newGroup + 8)
      ensures mem.Keys == old(mem.Keys)
      ensures forall m ::
        0 <= m < 8 && m != i - 7 ==> mem[Slot(newGroup, m)] == old(mem)[Slot(oldGroup, Source(i, m + 8))]
    {
      KeptSelf(mem, newGroup, newGroup + 8);
      KeptSelf(next, newGroup, newGroup + 8);
      KeptSelf(prev, newGroup, newGroup + 8);
      hide KeptOutside;
      var k: int, j: int := 7, 14;
      while k >= 0
        invariant -1 <= k <= 7 && j == if k >= i - 7 then 7 + k else 8 + k
        invariant mem.Keys == old(mem.Keys) && next.Keys == mem.Keys && prev.Keys == mem.Keys
        invariant KeptOutside(old(mem), mem, newGroup, newGroup + 8)
        invariant KeptOutside(old(next), next, newGroup, newGroup + 8)
        invariant KeptOutside(old(prev), prev, newGroup, newGroup + 8)
        invariant forall m ::
          k < m < 8 && m != i - 7 ==> mem[Slot(newGroup, m)] == old(mem)[Slot(oldGroup, Source(i, m + 8))]
      {
        if k != i - 7 {
          KeptAt(old(mem), mem, newGroup, newGroup + 8, Slot(oldGroup, j));
          Copy(Slot(newGroup, k), Slot(oldGroup, j), old(mem), old(next), old(prev), newGroup, newGroup + 8);
          j := j - 1;
        }
        k := k - 1;
      }
    }

    /** Fill a new group of eight with the last eight of a full group of fifteen. */
    method CopyUpperHalf(oldGroup: Ptr, newGroup: Ptr)
      requires next.Keys == mem.Keys && prev.Keys == mem.Keys && oldGroup + 15 <= newGroup
      requires forall j :: 0 <= j < 15 ==> Slot(oldGroup, j) in mem
      requires forall j :: 0 <= j < 8 ==> Slot(newGroup, j) in mem
      modifies this`mem, this`next, this`prev
      ensures KeptOutside(old(mem), mem, newGroup, newGroup + 8)
      ensures KeptOutside(old(next), next, newGroup, newGroup + 8)
      ensures KeptOutside(old(prev), prev, newGroup, newGroup + 8)
      ensures mem.Keys == old(mem.Keys)
      ensures forall m :: 0 <= m < 8 ==> mem[Slot(newGroup, m)] == old(mem)[Slot(oldGroup, m + 7)]
    {
      KeptSelf(mem, newGroup, newGroup + 8);
      KeptSelf(next, newGroup, newGroup + 8);
      KeptSelf(prev, newGroup, newGroup + 8);
      hide KeptOutside;
      var k: int := 7;
      while k >= 0
        invariant -1 <= k <= 7
        invariant mem.Keys == old(mem.Keys) && next.Keys == mem.Keys && prev.Keys == mem.Keys
        invariant KeptOutside(old(mem), mem, newGroup, newGroup + 8)
        invariant KeptOutside(old(next), next, newGroup, newGroup + 8)
        invariant KeptOutside(old(prev), prev, newGroup, newGroup + 8)
        invariant forall m :: k < m < 8 ==> mem[Slot(newGroup, m)] == old(mem)[Slot(oldGroup, m + 7)]
      {
        KeptAt(old(mem), mem, newGroup, newGroup + 8, Slot(oldGroup, k + 7));
        Copy(Slot(newGroup, k), Slot(oldGroup, k + 7), old(mem), old(next), old(prev), newGroup, newGroup + 8);
        k := k - 1;
      }
    }

    /** Open a gap behind kid i among the first eight. */
    method ShiftLowerHalf(oldGroup: Ptr, i: nat)
      requires next.Keys == mem.Keys && prev.Keys == mem.Keys && i < 7
      requires forall j :: 0 <= j < 8 ==> Slot(oldGroup, j) in mem
      modifies this`mem, this`next, this`prev
      ensures KeptOutside(old(mem), mem, oldGroup + 1, oldGroup + 8)
      ensures KeptOutside(old(next), next, oldGroup + 1, oldGroup + 8)
      ensures KeptOutside(old(prev), prev, oldGroup + 1, oldGroup + 8)
      ensures mem.Keys == old(mem.Keys)
      ensures forall m :: 0 <= m < 8 && m != i + 1 ==> mem[Slot(oldGroup, m)] == old(mem)[Slot(oldGroup, Source(i, m))]
    {
      KeptSelf(mem, oldGroup + 1, oldGroup + 8);
      KeptSelf(next, oldGroup + 1, oldGroup + 8);
      KeptSelf(prev, oldGroup + 1, oldGroup + 8);
      hide KeptOutside;
      var k := 7;
      while k > i + 1
        invariant i + 1 <= k <= 7
        invariant mem.Keys == old(mem.Keys) && next.Keys == mem.Keys && prev.Keys == mem.Keys
        invariant KeptOutside(old(mem), mem, oldGroup + 1, oldGroup + 8)
        invariant KeptOutside(old(next), next, oldGroup + 1, oldGroup + 8)
        invariant KeptOutside(old(prev), prev, oldGroup + 1, oldGroup + 8)
        invariant forall m :: 0 <= m <= k ==> mem[Slot(oldGroup, m)] == old(mem)[Slot(oldGroup, m)]
        invariant forall m :: k < m < 8 ==> mem[Slot(oldGroup, m)] == old(mem)[Slot(oldGroup, m - 1)]
      {
        Copy(Slot(oldGroup, k), Slot(oldGroup, k - 1), old(mem), old(next), old(prev), oldGroup + 1, oldGroup + 8);
        k := k - 1;
      }
    }

    /** Share sixteen places, one of them a gap behind kid i, between a full group and a new one. */
    method SplitGroup(oldGroup: Ptr, newGroup: Ptr, i: nat)
      requires next.Keys == mem.Keys && prev.Keys == mem.Keys && i < 15 && oldGroup + 15 <= newGroup
      requires forall j :: 0 <= j < 15 ==> Slot(oldGroup, j) in mem
      requires forall j :: 0 <= j < 8 ==> Slot(newGroup, j) in mem
      modifies this`mem, this`next, this`prev
      ensures mem.Keys == old(mem.Keys) && next.Keys == mem.Keys && prev.Keys == mem.Keys
      ensures forall j :: 0 <= j <= 15 && j != i + 1 ==>
        mem[PlaceAt(oldGroup, newGroup, 15, j)] == old(mem)[Slot(oldGroup, Source(i, j))]
      ensures forall p :: p in old(mem) && !(oldGroup < p < oldGroup + 8) && !(newGroup <= p < newGroup + 8) ==>
        mem[p] == old(mem[p]) && next[p] == old(next[p]) && prev[p] == old(prev[p])
    {
      if i >= 7 {
        MoveUpperHalf(oldGroup, newGroup, i);
      } else {
        CopyUpperHalf(oldGroup, newGroup);
        ShiftLowerHalf(oldGroup, i);
      }
    }

    /** Make room behind kid i of a group of n: in a new group if the group may grow, else by
        sharing sixteen places between the old group and a new one. */
    method MakeRoom(oldGroup: Ptr, n: nat, i: nat) returns (newGroup: Ptr)
      requires MemOk() && i < n <= 15
      requires forall j :: 0 <= j < n ==> Slot(oldGroup, j) in mem
      modifies this`mem, this`next, this`prev, this`brk
      ensures MemOk() && newGroup == old(brk) && newGroup != NULL
      ensures brk == newGroup + (if n < 15 then n + 1 else 8)
      ensures mem.Keys == old(mem.Keys) + Between(newGroup, brk)
      ensures forall j :: 0 <= j <= n ==> PlaceAt(oldGroup, newGroup, n, j) in mem
      ensures RoomMade(old(mem), mem, oldGroup, newGroup, n, i)
      ensures forall p :: p in old(mem) && !(oldGroup < p < oldGroup + 8 && n == 15) ==>
        next[p] == old(next[p]) && prev[p] == old(prev[p])
    {
      MemFacts();
      forall j | 0 <= j < n ensures Slot(oldGroup, j) < brk {}
      assert oldGroup + n <= brk by { assert Slot(oldGroup, n - 1) in mem; }
      if n < 15 {
        newGroup := Alloc(n + 1);
        CopyWithGap(oldGroup, newGroup, n, i);
      } else {
        newGroup := Alloc(8);
        SplitGroup(oldGroup, newGroup, i);
      }
    }

    // -------------------------------------------------------------- relinking leaves

    /** The leaf list around a group: what its neighbours and its outer links say. */
    ghost predicate Around(pre: seq<Ptr>, head: Ptr, last: Ptr, post: seq<Ptr>)
      reads this`next, this`prev
    {
      && Chain(next, prev, NULL, pre, head)
      && Chain(next, prev, last, post, NULL)
      && head in prev && prev[head] == LastOf(pre)
      && last in next && next[last] == FirstOf(post)
    }

    /** Link leaves 0 to n of a group one after the other. */
    method LinkInside(group: Ptr, n: nat)
      requires next.Keys == prev.Keys && forall j :: 0 <= j <= n ==> Slot(group, j) in next
      modifies this`next, this`prev
      ensures KeptOutside(old(next), next, group, group + n) && KeptOutside(old(prev), prev, group + 1, group + n + 1)
      ensures next.Keys == old(next.Keys) && prev.Keys == old(prev.Keys)
      ensures forall k :: 0 < k <= n ==> prev[Slot(group, k)] == Slot(group, k - 1)
      ensures forall k :: 0 <= k < n ==> next[Slot(group, k)] == Slot(group, k + 1)
    {
      KeptSelf(next, group, group + n);
      KeptSelf(prev, group + 1, group + n + 1);
      NoInnerLinks(next, prev, group);
      hide KeptOutside, InnerLinks;
      var i := 1;
      while i <= n
        invariant 1 <= i && (i <= n + 1) && next.Keys == old(next.Keys) && prev.Keys == old(prev.Keys)
        invariant InnerLinks(next, prev, group, i - 1)
        invariant KeptOutside(old(next), next, group, group + n)
          && KeptOutside(old(prev), prev, group + 1, group + n + 1)
      {
        KeptPut(old(prev), prev, group + 1, group + n + 1, Slot(group, i), Slot(group, i - 1));
        KeptPut(old(next), next, group, group + n, Slot(group, i - 1), Slot(group, i));
        InnerLinksMore(next, prev, group, i);
        prev := prev[Slot(group, i) := Slot(group, i - 1)];
        next := next[Slot(group, i - 1) := Slot(group, i)];
        i := i + 1;
      }
      InnerLinksAre(next, prev, group, n);
    }

    /** Link a new group of n + 1 leaves in the place of the old group of n. */
    method LinkNewGroup(oldGroup: Ptr, newGroup: Ptr, n: nat, ghost pre: seq<Ptr>, ghost post: seq<Ptr>)
      requires 0 < n && next.Keys == prev.Keys && oldGroup + n <= newGroup
      requires forall j :: 0 <= j <= n ==> Slot(newGroup, j) in next
      requires Around(pre, oldGroup, Slot(oldGroup, n - 1), post)
      requires Distinct(pre + Run(newGroup, n + 1) + post)
      requires forall p :: p in pre || p in post ==> p < newGroup
      modifies this`next, this`prev
      ensures next.Keys == old(next.Keys) && prev.Keys == old(prev.Keys)
      ensures Linked(next, prev, pre + Run(newGroup, n + 1) + post)
    {
      hide *;
      AroundFacts(pre, oldGroup, Slot(oldGroup, n - 1), post);
      ListFacts(pre, Run(newGroup, n + 1), post);
      LinkLikeOld(oldGroup, newGroup, n);
      ghost var n1, p1 := next, prev;
      if next[Slot(newGroup, n)] != NULL { prev := prev[next[Slot(newGroup, n)] := Slot(newGroup, n)]; }
      if prev[newGroup] != NULL { next := next[prev[newGroup] := newGroup]; }
      RewireNewGroup(old(next), old(prev), n1, p1, next, prev, oldGroup, newGroup, n, pre, post);
    }

    /** Link a new group inside, and its ends as those of the old group. */
    method LinkLikeOld(oldGroup: Ptr, newGroup: Ptr, n: nat)
      requires 0 < n && next.Keys == prev.Keys && oldGroup + n <= newGroup
      requires oldGroup in next && Slot(oldGroup, n - 1) in next
      requires forall j :: 0 <= j <= n ==> Slot(newGroup, j) in next
      modifies this`next, this`prev
      ensures next.Keys == old(next.Keys) && prev.Keys == old(prev.Keys)
      ensures forall k :: 0 < k <= n ==> prev[Slot(newGroup, k)] == Slot(newGroup, k - 1)
      ensures forall k :: 0 <= k < n ==> next[Slot(newGroup, k)] == Slot(newGroup, k + 1)
      ensures forall p :: p in old(next) && p < newGroup ==> next[p] == old(next)[p] && prev[p] == old(prev)[p]
      ensures newGroup in prev && prev[newGroup] == old(prev)[oldGroup]
      ensures next[Slot(newGroup, n)] == old(next)[Slot(oldGroup, n - 1)]
    {
      assert Slot(newGroup, 0) == newGroup;
      prev := prev[newGroup := prev[oldGroup]];
      LinkInside(newGroup, n);
      next := next[Slot(newGroup, n) := next[Slot(oldGroup, n - 1)]];
    }

    lemma AroundFacts(pre: seq<Ptr>, head: Ptr, last: Ptr, post: seq<Ptr>)
      requires Around(pre, head, last, post)
      ensures Chain(next, prev, NULL, pre, head) && Chain(next, prev, last, post, NULL)
      ensures head in prev && prev[head] == LastOf(pre) && last in next && next[last] == FirstOf(post)
      ensures pre != [] ==> LastOf(pre) in next
      ensures post != [] ==> FirstOf(post) in prev
    {
    }

    lemma ListFacts(pre: seq<Ptr>, group: seq<Ptr>, post: seq<Ptr>)
      requires Distinct(pre + group + post)
      ensures LastOf(pre) == NULL <==> pre == []
      ensures FirstOf(post) == NULL <==> post == []
      ensures pre != [] ==> LastOf(pre) in pre && LastOf(pre) !in group
      ensures post != [] ==> FirstOf(post) in post && FirstOf(post) !in group
    {
      DistinctParts(pre, group, post);
    }

    lemma RewireNewGroup(n0: Links, p0: Links, n1: Links, p1: Links, n2: Links, p2: Links, oldGroup: Ptr, newGroup: Ptr,
                         n: nat, pre: seq<Ptr>, post: seq<Ptr>)
      requires 0 < n && n0.Keys == p0.Keys && n1.Keys == n0.Keys && p1.Keys == p0.Keys
      requires forall j :: 0 <= j <= n ==> Slot(newGroup, j) in n0
      requires Chain(n0, p0, NULL, pre, oldGroup) && Chain(n0, p0, Slot(oldGroup, n - 1), post, NULL)
      requires Distinct(pre + Run(newGroup, n + 1) + post)
      requires forall p :: p in pre || p in post ==> p < newGroup
      requires forall k :: 0 < k <= n ==> p1[Slot(newGroup, k)] == Slot(newGroup, k - 1)
      requires forall k :: 0 <= k < n ==> n1[Slot(newGroup, k)] == Slot(newGroup, k + 1)
      requires forall p :: p in n0 && p < newGroup ==> n1[p] == n0[p] && p1[p] == p0[p]
      requires newGroup in p1 && p1[newGroup] == LastOf(pre) && n1[Slot(newGroup, n)] == FirstOf(post)
      requires n2 == if pre == [] then n1 else n1[LastOf(pre) := newGroup]
      requires p2 == if post == [] then p1 else p1[FirstOf(post) := Slot(newGroup, n)]
      ensures Linked(n2, p2, pre + Run(newGroup, n + 1) + post)
    {
      var group := Run(newGroup, n + 1);
      ChainSame(n0, p0, n1, p1, NULL, pre, oldGroup);
      ChainSame(n0, p0, n1, p1, Slot(oldGroup, n - 1), post, NULL);
      assert Slot(newGroup, 0) == newGroup;
      assert Chain(n1, p1, LastOf(pre), group, FirstOf(post));
      hide Chain, Distinct;
      Rewire(n1, p1, n2, p2, pre, oldGroup, group, Slot(oldGroup, n - 1), post);
    }

    /** Link sixteen leaves, eight of them in a new group. */
    method LinkSplitGroup(oldGroup: Ptr, newGroup: Ptr, i: nat, ghost pre: seq<Ptr>, ghost post: seq<Ptr>)
      requires next.Keys == prev.Keys && oldGroup + 15 <= newGroup
      requires forall j :: 0 <= j < 15 ==> Slot(oldGroup, j) in next
      requires forall j :: 0 <= j < 8 ==> Slot(newGroup, j) in next
      requires Around(pre, oldGroup, Slot(oldGroup, 14), post)
      requires Distinct(pre + Places(oldGroup, newGroup, 15) + post)
      requires forall p :: p in pre || p in post ==> !(oldGroup <= p < oldGroup + 15) && p < newGroup
      modifies this`next, this`prev
      ensures next.Keys == old(next.Keys) && prev.Keys == old(prev.Keys)
      ensures Linked(next, prev, pre + Places(oldGroup, newGroup, 15) + post)
    {
      hide *;
      AroundFacts(pre, oldGroup, Slot(oldGroup, 14), post);
      ListFacts(pre, Places(oldGroup, newGroup, 15), post);
      LinkSixteen(oldGroup, newGroup, i);
      ghost var n1, p1 := next, prev;
      if next[Slot(newGroup, 7)] != NULL { prev := prev[next[Slot(newGroup, 7)] := Slot(newGroup, 7)]; }
      RewireSplitGroup(old(next), old(prev), n1, p1, prev, oldGroup, newGroup, pre, post);
    }

    /** Link a group of eight and a new one behind it, with the last link of the former fifteen. */
    method LinkSixteen(oldGroup: Ptr, newGroup: Ptr, i: nat)
      requires next.Keys == prev.Keys && oldGroup + 15 <= newGroup
      requires forall j :: 0 <= j < 15 ==> Slot(oldGroup, j) in next
      requires forall j :: 0 <= j < 8 ==> Slot(newGroup, j) in next
      modifies this`next, this`prev
      ensures next.Keys == old(next.Keys) && prev.Keys == old(prev.Keys)
      ensures forall k :: 0 < k <= 7 ==> prev[Slot(newGroup, k)] == Slot(newGroup, k - 1)
      ensures forall k :: 0 <= k < 7 ==> next[Slot(newGroup, k)] == Slot(newGroup, k + 1)
      ensures forall k :: 0 < k <= 7 ==> prev[Slot(oldGroup, k)] == Slot(oldGroup, k - 1)
      ensures forall k :: 0 <= k < 7 ==> next[Slot(oldGroup, k)] == Slot(oldGroup, k + 1)
      ensures next[Slot(oldGroup, 7)] == Slot(newGroup, 0) && prev[Slot(newGroup, 0)] == Slot(oldGroup, 7)
      ensures forall p :: p in old(next) && p < newGroup && !(oldGroup <= p < oldGroup + 15) ==>
        next[p] == old(next)[p] && prev[p] == old(prev)[p]
      ensures prev[Slot(oldGroup, 0)] == old(prev)[oldGroup] && next[Slot(newGroup, 7)] == old(next)[Slot(oldGroup, 14)]
    {
      hide *;
      SlotsApart(oldGroup, newGroup);
      if i == 14 { next := next[Slot(newGroup, 7) := next[Slot(oldGroup, 14)]]; }
      ghost var na := next;
      prev := prev[newGroup := Slot(oldGroup, 7)];
      ghost var pa := prev;
      LinkInside(newGroup, 7);
      ghost var nb, pb := next, prev;
      LinkInside(oldGroup, 7);
      ghost var nc := next;
      next := next[Slot(newGroup, 7) := next[Slot(oldGroup, 14)]];
      next := next[Slot(oldGroup, 7) := newGroup];
      SixteenNext(old(next), na, nb, nc, next, oldGroup, newGroup);
      SixteenPrev(old(prev), pa, pb, prev, oldGroup, newGroup);
    }

    lemma SlotsApart(oldGroup: Ptr, newGroup: Ptr)
      requires oldGroup + 15 <= newGroup
      ensures Slot(newGroup, 0) == newGroup && Slot(oldGroup, 0) == oldGroup
      ensures Slot(newGroup, 7) != Slot(oldGroup, 14)
    {
    }

    lemma SixteenNext(n0: Links, na: Links, nb: Links, nc: Links, n': Links, oldGroup: Ptr, newGroup: Ptr)
      requires oldGroup + 15 <= newGroup
      requires forall j :: 0 <= j < 15 ==> Slot(oldGroup, j) in n0
      requires forall j :: 0 <= j < 8 ==> Slot(newGroup, j) in n0
      requires na == n0 || na == n0[Slot(newGroup, 7) := n0[Slot(oldGroup, 14)]]
      requires KeptOutside(na, nb, newGroup, newGroup + 7) && KeptOutside(nb, nc, oldGroup, oldGroup + 7)
      requires forall k :: 0 <= k < 7 ==> Slot(newGroup, k) in nb && nb[Slot(newGroup, k)] == Slot(newGroup, k + 1)
      requires forall k :: 0 <= k < 7 ==> Slot(oldGroup, k) in nc && nc[Slot(oldGroup, k)] == Slot(oldGroup, k + 1)
      requires Slot(oldGroup, 14) in nc && n' == nc[Slot(newGroup, 7) := nc[Slot(oldGroup, 14)]]
        [Slot(oldGroup, 7) := newGroup]
      ensures n'.Keys == n0.Keys
      ensures forall k :: 0 <= k < 7 ==> n'[Slot(newGroup, k)] == Slot(newGroup, k + 1)
      ensures forall k :: 0 <= k < 7 ==> n'[Slot(oldGroup, k)] == Slot(oldGroup, k + 1)
      ensures n'[Slot(oldGroup, 7)] == newGroup && n'[Slot(newGroup, 7)] == n0[Slot(oldGroup, 14)]
      ensures forall p :: p in n0 && p < newGroup && !(oldGroup <= p < oldGroup + 15) ==> n'[p] == n0[p]
    {
      forall k | 0 <= k < 7
        ensures n'[Slot(newGroup, k)] == Slot(newGroup, k + 1) && n'[Slot(oldGroup, k)] == Slot(oldGroup, k + 1)
      {
      }
    }

    lemma SixteenPrev(p0: Links, pa: Links, pb: Links, p': Links, oldGroup: Ptr, newGroup: Ptr)
      requires oldGroup + 15 <= newGroup
      requires forall j :: 0 <= j < 15 ==> Slot(oldGroup, j) in p0
      requires forall j :: 0 <= j < 8 ==> Slot(newGroup, j) in p0
      requires pa == p0[newGroup := Slot(oldGroup, 7)]
      requires KeptOutside(pa, pb, newGroup + 1, newGroup + 8) && KeptOutside(pb, p', oldGroup + 1, oldGroup + 8)
      requires forall k :: 0 < k <= 7 ==> Slot(newGroup, k) in pb && pb[Slot(newGroup, k)] == Slot(newGroup, k - 1)
      requires forall k :: 0 < k <= 7 ==> Slot(oldGroup, k) in p' && p'[Slot(oldGroup, k)] == Slot(oldGroup, k - 1)
      ensures p'.Keys == p0.Keys
      ensures forall k :: 0 < k <= 7 ==> p'[Slot(newGroup, k)] == Slot(newGroup, k - 1)
      ensures forall k :: 0 < k <= 7 ==> p'[Slot(oldGroup, k)] == Slot(oldGroup, k - 1)
      ensures p'[newGroup] == Slot(oldGroup, 7) && oldGroup in p' && p'[oldGroup] == p0[oldGroup]
      ensures forall p :: p in p0 && p < newGroup && !(oldGroup <= p < oldGroup + 15) ==> p'[p] == p0[p]
    {
      assert Slot(newGroup, 0) == newGroup && Slot(oldGroup, 0) == oldGroup;
    }

    lemma RewireSplitGroup(n0: Links, p0: Links, n1: Links, p1: Links, p2: Links, oldGroup: Ptr, newGroup: Ptr,
                           pre: seq<Ptr>, post: seq<Ptr>)
      requires n0.Keys == p0.Keys && n1.Keys == n0.Keys && p1.Keys == p0.Keys && oldGroup + 15 <= newGroup
      requires forall j :: 0 <= j < 15 ==> Slot(oldGroup, j) in n0
      requires forall j :: 0 <= j < 8 ==> Slot(newGroup, j) in n0
      requires Chain(n0, p0, NULL, pre, oldGroup) && Chain(n0, p0, Slot(oldGroup, 14), post, NULL)
      requires Distinct(pre + Places(oldGroup, newGroup, 15) + post)
      requires forall p :: p in pre || p in post ==> !(oldGroup <= p < oldGroup + 15) && p < newGroup
      requires forall k :: 0 < k <= 7 ==> p1[Slot(newGroup, k)] == Slot(newGroup, k - 1)
      requires forall k :: 0 <= k < 7 ==> n1[Slot(newGroup, k)] == Slot(newGroup, k + 1)
      requires forall k :: 0 < k <= 7 ==> p1[Slot(oldGroup, k)] == Slot(oldGroup, k - 1)
      requires forall k :: 0 <= k < 7 ==> n1[Slot(oldGroup, k)] == Slot(oldGroup, k + 1)
      requires n1[Slot(oldGroup, 7)] == Slot(newGroup, 0) && p1[Slot(newGroup, 0)] == Slot(oldGroup, 7)
      requires forall p :: p in n0 && p < newGroup && !(oldGroup <= p < oldGroup + 15) ==>
        n1[p] == n0[p] && p1[p] == p0[p]
      requires p1[Slot(oldGroup, 0)] == LastOf(pre) && n1[Slot(newGroup, 7)] == FirstOf(post)
      requires p2 == if post == [] then p1 else p1[FirstOf(post) := Slot(newGroup, 7)]
      ensures Linked(n1, p2, pre + Places(oldGroup, newGroup, 15) + post)
    {
      var group := Places(oldGroup, newGroup, 15);
      ChainSame(n0, p0, n1, p1, NULL, pre, oldGroup);
      ChainSame(n0, p0, n1, p1, Slot(oldGroup, 14), post, NULL);
      assert Slot(oldGroup, 0) == oldGroup;
      assert Chain(n1, p1, LastOf(pre), group, FirstOf(post));
      var n2 := if pre == [] then n1 else n1[LastOf(pre) := oldGroup];
      assert n2 == n1;
      hide Chain, Distinct;
      Rewire(n1, p1, n2, p2, pre, oldGroup, group, Slot(oldGroup, 14), post);
    }

    // -------------------------------------------------------------- insertion

    ghost function Now(): Store
      reads this`mem, this`next, this`prev, this`brk
    {
      Store(mem, next, prev, brk)
    }

    /** Relink the leaves of a group for which room has been made. */
    method RelinkLeaves(oldGroup: Ptr, newGroup: Ptr, n: nat, i: nat, ghost n0: Links, ghost p0: Links,
                        ghost pre: seq<Ptr>, ghost post: seq<Ptr>)
      requires 0 < n <= 15 && oldGroup != NULL && newGroup != NULL && MemOk()
      requires n0.Keys == p0.Keys && Linked(n0, p0, pre + Run(oldGroup, n) + post)
      requires forall p :: p in n0 ==> p < newGroup
      requires forall j :: 0 <= j <= n ==> PlaceAt(oldGroup, newGroup, n, j) in mem
      requires forall p :: p in n0 ==> p in next && p in prev
      requires forall p :: p in n0 && !(oldGroup < p < oldGroup + 8 && n == 15) ==> next[p] == n0[p] && prev[p] == p0[p]
      modifies this`next, this`prev
      ensures MemOk() && Linked(next, prev, pre + Places(oldGroup, newGroup, n) + post)
    {
      hide *;
      MemFacts();
      PlacesOfSmallAndBig(oldGroup, newGroup, n);
      RunFacts(oldGroup, newGroup, n, pre, post, n0, p0);
      StillAround(oldGroup, n, n0, p0, pre, post);
      if n < 15 {
        SlotsFromPlaces(oldGroup, newGroup, n, mem.Keys);
        LinkNewGroup(oldGroup, newGroup, n, pre, post);
      } else {
        SlotsFromPlaces(oldGroup, newGroup, n, mem.Keys);
        LinkSplitGroup(oldGroup, newGroup, i, pre, post);
      }
      MemFromKeys();
    }

    lemma MemFromKeys()
      requires brk > 0 && next.Keys == mem.Keys && prev.Keys == mem.Keys
      requires forall p :: p in mem ==> 0 < p < brk
      ensures MemOk()
    {
    }

    lemma StillAround(oldGroup: Ptr, n: nat, n0: Links, p0: Links, pre: seq<Ptr>, post: seq<Ptr>)
      requires 0 < n <= 15 && n0.Keys == p0.Keys && Linked(n0, p0, pre + Run(oldGroup, n) + post)
      requires forall p :: p in n0 ==> p in next && p in prev
      requires forall p :: p in n0 && !(oldGroup < p < oldGroup + 8 && n == 15) ==> next[p] == n0[p] && prev[p] == p0[p]
      ensures Around(pre, oldGroup, Slot(oldGroup, n - 1), post)
    {
      var group := Run(oldGroup, n);
      hide Linked, Chain, Distinct;
      LinkedIsThreeChains(n0, p0, pre, group, post);
      DistinctParts(pre, group, post);
      RunHas(oldGroup, n);
      ChainEnds(n0, p0, LastOf(pre), group, FirstOf(post));
      ChainSame(n0, p0, next, prev, NULL, pre, group[0]);
      ChainSame(n0, p0, next, prev, LastOf(group), post, NULL);
    }

    /** Insert into a leaf, splitting it, and making room in its group, if it is full. */
    method InsertInLeaf(node: Ptr, parent: Ptr, i: nat, e: Pair, ghost first: Ptr, ghost kids: seq<Tree>, ghost lo: int,
                        ghost hi: int, ghost pre: seq<Ptr>, ghost post: seq<Ptr>)
      returns (newKey: int, newChild: Ptr, ghost o: Outcome)
      requires MemOk() && Ready(Now(), node, parent, i, e, first, kids, lo, hi, 0, pre, post)
      modifies this`mem, this`next, this`prev, this`brk
      ensures MemOk() && Done(old(Now()), Now(), i, e, first, kids, lo, hi, 0, pre, post, newChild, o)
      ensures o.Splits? ==> newKey == o.s
    {
      hide *;
      NowFacts();
      MemFacts();
      ReadyLeaf(Now(), node, parent, i, e, first, kids, lo, hi, pre, post);
      ghost var was := Now();
      var c := mem[node];
      ghost var es := kids[i].es;
      var l := FindEntry(c.entries, c.num, e.key);
      if c.num < 6 {
        var entries := OpenSlot(c.entries, c.num, l, e);
        mem := mem[node := LeafCell(c.num + 1, entries)];
        newKey, newChild, o := 0, NULL, Stays(Leaf(PutPair(es, e)));
        MemStays(was);
        NowFacts();
        LeafRoomDone(was, node, parent, i, e, first, kids, lo, hi, pre, post, entries);
      } else {
        assert c.entries[..6] == c.entries;
        newKey, newChild, o := SplitLeaf(node, parent, i, e, l, first, kids, lo, hi, pre, post);
      }
    }

    lemma NowFacts()
      ensures Now() == Store(mem, next, prev, brk)
    {
    }

    lemma MemStays(was: Store)
      requires was.brk > 0 && was.next.Keys == was.mem.Keys && was.prev.Keys == was.mem.Keys
      requires forall p :: p in was.mem ==> 0 < p < was.brk
      requires mem.Keys == was.mem.Keys && next.Keys == was.next.Keys && prev.Keys == was.prev.Keys && brk == was.brk
      ensures MemOk()
    {
    }

    method SplitLeaf(node: Ptr, parent: Ptr, i: nat, e: Pair, l: nat, ghost first: Ptr, ghost kids: seq<Tree>,
                     ghost lo: int, ghost hi: int, ghost pre: seq<Ptr>, ghost post: seq<Ptr>)
      returns (newKey: int, newChild: Ptr, ghost o: Outcome)
      requires MemOk() && Ready(Now(), node, parent, i, e, first, kids, lo, hi, 0, pre, post)
      requires i < |kids| && kids[i].Leaf? && node in mem && mem[node].LeafCell?
        && mem[node].num == 6 == |mem[node].entries|
      requires l == LowerBound(kids[i].es, e.key) && mem[node].entries == kids[i].es
      modifies this`mem, this`next, this`prev, this`brk
      ensures MemOk() && Done(old(Now()), Now(), i, e, first, kids, lo, hi, 0, pre, post, newChild, o)
      ensures o.Splits? && newKey == o.s
    {
      hide *;
      NowFacts();
      MemFacts();
      ghost var was := Now();
      ReadyParts(was, node, parent, i, e, first, kids, lo, hi, 0, pre, post);
      ReadyLeaf(was, node, parent, i, e, first, kids, lo, hi, pre, post);
      ReadySlots(was, node, parent, i, e, first, kids, lo, hi, 0, pre, post);
      ReadyLeafGroup(was, node, parent, i, e, first, kids, lo, hi, pre, post);
      var oldGroup, n := mem[parent].first, mem[parent].num + 1;
      newChild := MakeRoom(oldGroup, n, i);
      RelinkLeaves(oldGroup, newChild, n, i, was.next, was.prev, pre, post);
      MemFacts();
      ghost var roomy := mem;
      var oldLeaf, newLeaf := PlaceAt(oldGroup, newChild, n, i), PlaceAt(oldGroup, newChild, n, i + 1);
      RoomAt(was.mem, roomy, oldGroup, newChild, n, i);
      ghost var lower, upper;
      newKey, lower, upper := FillLeaves(oldLeaf, newLeaf, l, e);
      PutPairLength(kids[i].es, e);
      ghost var p := PutPair(kids[i].es, e);
      o := Splits(Leaf(p[..4]), newKey, Leaf(p[4..]));
      MemStays(Store(roomy, next, prev, brk));
      NowFacts();
      LeafSplitDone(was, roomy, Now(), node, parent, i, e, first, kids, lo, hi, pre, post, newChild, lower, upper);
    }

    /** Share the entries of a full leaf and a new entry between it and another leaf. */
    method FillLeaves(oldLeaf: Ptr, newLeaf: Ptr, l: nat, e: Pair)
        returns (newKey: int, ghost lower: seq<Pair>, ghost upper: seq<Pair>)
      requires oldLeaf in mem && newLeaf in mem && mem[oldLeaf].LeafCell? && |mem[oldLeaf].entries| == 6 && l <= 6
      modifies this`mem
      ensures |lower| == |upper| == 6 && newKey == lower[3].key
      ensures lower[..4] == Gap(old(mem[oldLeaf]).entries, l, e)[..4]
      ensures upper[..3] == Gap(old(mem[oldLeaf]).entries, l, e)[4..]
      ensures mem == old(mem)[newLeaf := LeafCell(3, upper)][oldLeaf := LeafCell(4, lower)]
      ensures mem.Keys == old(mem.Keys)
    {
      var junk: Pair := *;
      var lo, up := SpillOver(mem[oldLeaf].entries, seq(6, _ => junk), l, e);
      mem := mem[newLeaf := LeafCell(3, up)];
      mem := mem[oldLeaf := LeafCell(4, lo)];
      newKey, lower, upper := lo[3].key, lo, up;
    }

    /** Insert below node i of a group.  Returns the new group if the node was split. */
    method InsertInto(node: Ptr, parent: Ptr, i: nat, e: Pair, ghost first: Ptr, ghost kids: seq<Tree>, ghost lo: int,
                      ghost hi: int, ghost h: nat, ghost pre: seq<Ptr>, ghost post: seq<Ptr>)
      returns (newKey: int, newChild: Ptr, ghost o: Outcome)
      requires MemOk() && Ready(Now(), node, parent, i, e, first, kids, lo, hi, h, pre, post)
      modifies this`mem, this`next, this`prev, this`brk, this`root
      ensures MemOk() && Done(old(Now()), Now(), i, e, first, kids, lo, hi, h, pre, post, newChild, o)
      ensures parent != NULL && o.Splits? ==> newKey == o.s
      ensures parent != NULL || o.Stays? ==> root == old(root)
      ensures parent == NULL && o.Splits? ==> NewRoot(mem, root, o.s, newChild, LocsAfter(first, newChild, |kids|, o),
        KidsAfter(kids, i, o))
      decreases h
    {
      hide *;
      NowFacts();
      ghost var was := Now();
      ReadyParts(was, node, parent, i, e, first, kids, lo, hi, h, pre, post);
      HeightOfCell(mem, node, first, kids, i, lo, hi, h);
      if mem[node].LeafCell? {
        newKey, newChild, o := InsertInLeaf(node, parent, i, e, first, kids, lo, hi, pre, post);
      } else {
        ReadyNode(was, node, parent, i, e, first, kids, lo, hi, h, pre, post);
        ghost var t := kids[i];
        var l := FindKid(mem[node].keys, mem[node].num, e.key);
        newKey, newChild, o := InsertInto(Slot(mem[node].first, l), node, l, e, t.first, t.kids, LoOf(t.keys, lo, l),
            HiOf(t.keys, hi, l), h - 1,
                                          LeavesLeft(first, kids, i, pre), LeavesRight(first, kids, i, post));
        NowFacts();
        BelowParts(was, Now(), l, e, t, LoOf(t.keys, lo, l), HiOf(t.keys, hi, l), h - 1,
                   LeavesLeft(first, kids, i, pre), LeavesRight(first, kids, i, post), newChild, o);
        GroupKept(was, Now(), node, parent, i, e, first, kids, lo, hi, h, pre, post);
        GroupThereParts(mem, node, parent, first, kids, i);
        InnerCellFacts(mem[node], t, lo, hi);
        if newChild == NULL || mem[node].num < 14 {
          newKey, newChild, o := AddKid(was, node, parent, i, e, first, kids, lo, hi, h, pre, post, l, newKey,
              newChild, o);
        } else {
          newKey, newChild, o := SplitNode(was, node, parent, i, e, first, kids, lo, hi, h, pre, post, l, newKey,
              newChild, o);
        }
      }
    }

    /** After the insertion below: put the new separator and group, if any, into a node with room. */
    method AddKid(ghost was: Store, node: Ptr, parent: Ptr, i: nat, e: Pair, ghost first: Ptr, ghost kids: seq<Tree>,
                  ghost lo: int, ghost hi: int, ghost h: nat, ghost pre: seq<Ptr>, ghost post: seq<Ptr>, l: nat,
                  key: int, child: Ptr, ghost below: Outcome)
      returns (newKey: int, newChild: Ptr, ghost o: Outcome)
      requires MemOk() && Ready(was, node, parent, i, e, first, kids, lo, hi, h, pre, post) && h > 0
      requires i < |kids| && kids[i].Node? && l == KeyIndex(kids[i].keys, e.key) <= |kids[i].keys|
      requires Done(was, Now(), l, e, kids[i].first, kids[i].kids, LoOf(kids[i].keys, lo, l),
        HiOf(kids[i].keys, hi, l), h - 1,
                    LeavesLeft(first, kids, i, pre), LeavesRight(first, kids, i, post), child, below)
      requires below.Splits? ==> key == below.s
      requires GroupThere(mem, node, parent, first, kids, i)
      requires child == NULL <==> below.Stays?
      requires below.Splits? ==> |kids[i].keys| < 14
      modifies this`mem
      ensures MemOk() && Done(was, Now(), i, e, first, kids, lo, hi, h, pre, post, newChild, o)
      ensures o.Stays?
    {
      hide *;
      NowFacts();
      MemFacts();
      ghost var mid := Now();
      ghost var t := kids[i];
      newKey, newChild := key, NULL;
      GroupThereParts(mem, node, parent, first, kids, i);
      InnerCellFacts(mem[node], t, lo, hi);
      if child != NULL {
        var keys := OpenSlot(mem[node].keys, mem[node].num, l, key);
        mem := mem[node := InnerCell(mem[node].num + 1, keys, child)];
        CellAfterSplit(t, l, child, below, keys);
      } else {
        CellAfterStay(mem[node], t, l, child, below);
        assert mem == mem[node := mem[node]];
      }
      o := Stays(NodeAfter(t, l, child, below));
      MemStays(mid);
      NowFacts();
      StaysDone(was, mid, node, parent, i, e, first, kids, lo, hi, h, pre, post, child, below, mem[node]);
    }

    /** After the insertion below split a full node's group: split the node. */
    method SplitNode(ghost was: Store, node: Ptr, parent: Ptr, i: nat, e: Pair, ghost first: Ptr, ghost kids: seq<Tree>,
                     ghost lo: int, ghost hi: int, ghost h: nat, ghost pre: seq<Ptr>, ghost post: seq<Ptr>, l: nat,
                     key: int, child: Ptr, ghost below: Outcome)
      returns (newKey: int, newChild: Ptr, ghost o: Outcome)
      requires MemOk() && Ready(was, node, parent, i, e, first, kids, lo, hi, h, pre, post) && h > 0
      requires i < |kids| && kids[i].Node? && l == KeyIndex(kids[i].keys, e.key) <= |kids[i].keys|
      requires Done(was, Now(), l, e, kids[i].first, kids[i].kids, LoOf(kids[i].keys, lo, l),
        HiOf(kids[i].keys, hi, l), h - 1,
                    LeavesLeft(first, kids, i, pre), LeavesRight(first, kids, i, post), child, below)
      requires below.Splits? && key == below.s
      requires GroupThere(mem, node, parent, first, kids, i)
      requires |kids[i].keys| == 14 && |kids[i].kids| == 15
      modifies this`mem, this`next, this`prev, this`brk, this`root
      ensures MemOk() && Done(was, Now(), i, e, first, kids, lo, hi, h, pre, post, newChild, o)
      ensures o.Splits?
      ensures parent != NULL ==> newKey == o.s && root == old(root)
      ensures parent == NULL ==> NewRoot(mem, root, o.s, newChild, LocsAfter(first, newChild, |kids|, o),
        KidsAfter(kids, i, o))
    {
      hide *;
      NowFacts();
      MemFacts();
      ghost var mid := Now();
      ghost var t := kids[i];
      GroupThereParts(mem, node, parent, first, kids, i);
      FullCell(mem[node], t);
      var oldNode, newNode;
      newChild, oldNode, newNode := RoomForNode(node, parent, i, first, kids);
      MemFacts();
      ghost var roomy := mem;
      ghost var lower, upper;
      newKey, lower, upper := FillNodes(oldNode, newNode, l, key, child);
      ghost var filled := mem;
      BelowBrkIs(mid.mem, mid.brk);
      var junk: int := *;
      var rc := InnerCell(1, seq(14, _ => junk)[0 := newKey], newChild);
      if parent == NULL {
        mem := mem[root := rc];
      }
      o := Splits(LowerNode(t, l, below), newKey, UpperNode(t, l, child, below));
      MemFromKeys();
      NowFacts();
      SplitDone(was, mid, roomy, filled, Now(), root, rc, node, parent, i, e, first, kids, lo, hi, h, pre, post,
          child, below, newChild, lower, upper);
      if parent == NULL {
        NewRootIs(mem, root, newKey, newChild, LocsAfter(first, newChild, |kids|, o), KidsAfter(kids, i, o), rc.keys);
      }
    }

    /** Room behind node i in its group; the root gets a new root above it. */
    method RoomForNode(node: Ptr, parent: Ptr, i: nat, ghost first: Ptr, ghost kids: seq<Tree>)
        returns (newGroup: Ptr, oldNode: Ptr, newNode: Ptr)
      requires MemOk() && GroupThere(mem, node, parent, first, kids, i)
      modifies this`mem, this`next, this`prev, this`brk, this`root
      ensures MemOk() && i < |kids| <= 15 && old(brk) <= newGroup && newGroup != NULL
      ensures brk == newGroup + (if |kids| < 15 then |kids| + 1 else 8)
      ensures RoomMade(old(mem), mem, first, newGroup, |kids|, i)
      ensures oldNode == PlaceAt(first, newGroup, |kids|, i) && newNode == PlaceAt(first, newGroup, |kids|, i + 1)
      ensures oldNode in mem && newNode in mem && node in old(mem) && mem[oldNode] == old(mem[node])
      ensures forall p :: p in old(mem) && !(first < p < first + 8 && |kids| == 15) ==>
        p in next && p in prev && next[p] == old(next[p]) && prev[p] == old(prev[p])
      ensures if parent == NULL then old(brk) <= root < newGroup && root in mem && root != NULL else root == old(root)
    {
      hide *;
      MemFacts();
      GroupThereParts(mem, node, parent, first, kids, i);
      var oldGroup, n := node, 1;
      if parent == NULL {
        root := Alloc(1);
        InBetween(root, brk);
      } else {
        oldGroup, n := mem[parent].first, mem[parent].num + 1;
      }
      ghost var grown := mem;
      newGroup := MakeRoom(oldGroup, n, i);
      MemFacts();
      RoomInGrown(old(mem), grown, mem, first, newGroup, n, i);
      RoomAt(old(mem), mem, first, newGroup, n, i);
      oldNode, newNode := PlaceAt(oldGroup, newGroup, n, i), PlaceAt(oldGroup, newGroup, n, i + 1);
    }

    /** Share the separators of a full node and a new one between it and another node; the eighth moves up. */
    method FillNodes(oldNode: Ptr, newNode: Ptr, l: nat, key: int, child: Ptr)
        returns (newKey: int, ghost lower: seq<int>, ghost upper: seq<int>)
      requires oldNode in mem && newNode in mem && mem[oldNode].InnerCell? && |mem[oldNode].keys| == 14 && l <= 14
      modifies this`mem
      ensures |lower| == |upper| == 14 && newKey == lower[7]
      ensures lower[..8] == Gap(old(mem[oldNode]).keys, l, key)[..8]
      ensures upper[..7] == Gap(old(mem[oldNode]).keys, l, key)[8..]
      ensures mem == old(mem)[newNode := InnerCell(7, upper, child)]
        [oldNode := InnerCell(7, lower, old(mem[oldNode]).first)]
      ensures mem.Keys == old(mem.Keys)
    {
      var junk: int := *;
      var firstChild := mem[oldNode].first;
      var lo, up := SpillOver(mem[oldNode].keys, seq(14, _ => junk), l, key);
      mem := mem[newNode := InnerCell(7, up, child)];
      mem := mem[oldNode := InnerCell(7, lo, firstChild)];
      newKey, lower, upper := lo[7], lo, up;
    }

    // -------------------------------------------------------------- the index

    ghost predicate Valid()
      reads this
    {
      MemOk() && TreeOk(mem, next, prev, root, tree, height)
    }

    ghost function Entries(): seq<Pair>
      reads this`tree
    {
      Contents(tree)
    }

    lemma ValidFacts()
      requires Valid()
      ensures MemOk() && TreeOk(mem, next, prev, root, tree, height)
    {
    }

    /** Insert an entry, in front of those with the same key. */
    method Insert(e: Pair)
      requires Valid() && LOWEST <= e.key <= HIGHEST
      modifies this
      ensures Valid() && Entries() == PutPair(old(Entries()), e)
      ensures forall key :: Reaches(tree, key) <==> Reaches(old(tree), key) || key == e.key
    {
      hide *;
      ValidFacts();
      EntriesIs();
      NowFacts();
      MemFacts();
      RootReady(Now(), root, e, tree, height);
      ghost var was := Now();
      ghost var key, child, o := 0, NULL, Stays(tree);
      key, child, o := InsertInto(root, NULL, 0, e, root, [tree], LOWEST, HIGHEST, height, [], []);
      NowFacts();
      ghost var t0, h0 := tree, height;
      tree, height := TreeAfter(tree, child, o), HeightAfter(height, o);
      RootDone(was, Now(), old(root), root, e, t0, h0, child, o);
      assert Valid() by { ValidIs(); }
      EntriesIs();
    }

    lemma ValidIs()
      requires MemOk() && TreeOk(mem, next, prev, root, tree, height)
      ensures Valid()
    {
    }

    lemma ContentsSortedNow()
      requires Valid()
      ensures Sorted(Contents(tree))
    {
      SortedContents(tree, LOWEST, HIGHEST, height);
    }

    lemma EntriesIs()
      ensures Entries() == Contents(tree)
    {
    }

    /** Follow the separators down to a leaf. */
    method FindLeaf(key: int) returns (leaf: Ptr, ghost pre: seq<Ptr>, ghost post: seq<Ptr>)
      requires Valid()
      ensures leaf in mem && LeafOk(mem[leaf]) && Sorted(EntriesAt(mem, leaf))
        && EntriesAt(mem, leaf) == LeafFor(tree, key)
      ensures LeavesOf(root, tree) == pre + [leaf] + post && leaf == LeafAt(root, tree, key)
      ensures AllBelow(Gather(mem, pre), key) && AllFrom(Gather(mem, post), key)
    {
      hide *;
      ValidFacts();
      TreeOkParts(mem, next, prev, root, tree, height);
      leaf, pre, post := root, [], [];
      ghost var t, lo, hi, h := tree, LOWEST, HIGHEST, height;
      GatherEmpty(mem, key);
      assert [] + LeavesOf(root, tree) + [] == LeavesOf(root, tree);
      while mem[leaf].InnerCell?
        invariant leaf in mem && CellFor(mem[leaf], t) && Below(mem, t) && Within(t, lo, hi, h)
        invariant LeavesOf(root, tree) == pre + LeavesOf(leaf, t) + post && LeafFor(t, key) == LeafFor(tree, key)
        invariant LeafAt(leaf, t, key) == LeafAt(root, tree, key)
        invariant AllBelow(Gather(mem, pre), key) && AllFrom(Gather(mem, post), key)
        decreases h
      {
        pre, post := DescendStep(mem, leaf, t, lo, hi, h, key, pre, post);
        LeafAtKid(leaf, t, key);
        var l := FindKid(mem[leaf].keys, mem[leaf].num, key);
        leaf := Slot(mem[leaf].first, l);
        t, lo, hi, h := t.kids[l], LoOf(t.keys, lo, l), HiOf(t.keys, hi, l), h - 1;
      }
      LeafReached(mem, leaf, t, lo, hi, h, key);
      LeafAtKid(leaf, t, key);
    }

    /** The tid of the leftmost entry with the key, if routing reaches it; otherwise 0. */
    method Search(key: int) returns (tid: int)
      requires Valid()
      ensures Reaches(tree, key) ==> tid == Find(Entries(), key)
      ensures !Reaches(tree, key) ==> tid == 0
    {
      hide *;
      ValidFacts();
      EntriesIs();
      TreeOkParts(mem, next, prev, root, tree, height);
      FindInLeaf(tree, LOWEST, HIGHEST, height, key);
      var leaf, _, _ := FindLeaf(key);
      EntriesAtIs(mem, leaf);
      var l := FindEntry(mem[leaf].entries, mem[leaf].num, key);
      FindIs(LeafFor(tree, key), key);
      if l < mem[leaf].num && key == mem[leaf].entries[l].key {
        tid := mem[leaf].entries[l].tid;
      } else {
        tid := 0;
      }
    }

    /** Remove entry l of a leaf. */
    method CloseSlot(entries: seq<Pair>, num: nat, l: nat) returns (r: seq<Pair>)
      requires l < num <= |entries|
      ensures |r| == |entries| && r[..num - 1] == entries[..l] + entries[l + 1..num]
    {
      r := entries;
      var i := l;
      while i < num - 1
        invariant l <= i <= num - 1 && |r| == |entries|
        invariant forall k :: 0 <= k < l ==> r[k] == entries[k]
        invariant forall k :: l <= k < i ==> r[k] == entries[k + 1]
        invariant forall k :: i <= k < num ==> r[k] == entries[k]
      {
        r := r[i := r[i + 1]];
        i := i + 1;
      }
    }

    /** Lazy deletion: remove the first occurrence of an entry, walking over leaves as far as its key goes. */
    method Delete(e: Pair) returns (deleted: bool)
      requires Valid()
      modifies this
      ensures Valid() && (deleted <==> e in old(Entries()))
      ensures Entries() == DropPair(old(Entries()), e)
      ensures forall key :: key != e.key ==> (Reaches(tree, key) <==> Reaches(old(tree), key))
      ensures LeafFor(tree, e.key) == DropPair(LeafFor(old(tree), e.key), e)
      ensures !deleted ==> tree == old(tree)
    {
      hide *;
      ValidFacts();
      EntriesIs();
      TreeOkParts(mem, next, prev, root, tree, height);
      ContentsAreGathered(mem, root, tree);
      SortedContents(tree, LOWEST, HIGHEST, height);
      ghost var leaves := LeavesOf(root, tree);
      var node;
      ghost var pre, post;
      node, pre, post := FindLeaf(e.key);
      EntriesAtIs(mem, node);
      var l: nat := FindEntry(mem[node].entries, mem[node].num, e.key);
      StartWalk(mem, pre, node, post, e);
      NextLeaf(next, prev, pre, node, post);
      while node != NULL
        invariant unchanged(this)
        invariant node != NULL ==> leaves == pre + [node] + post && l <= |EntriesAt(mem, node)|
        invariant node != NULL ==> Walked(mem, pre, node, post, e, l)
        invariant node != NULL ==> LeafAt(root, tree, e.key) in pre + [node]
        invariant node == NULL ==> e !in Entries()
        decreases if node == NULL then 0 else |post| + 1, 0
      {
        LeafInList(mem, pre, node, post, root, tree);
        EntriesAtIs(mem, node);
        while l < mem[node].num
          invariant unchanged(this)
          invariant l <= mem[node].num && Walked(mem, pre, node, post, e, l)
        {
          WalkedHere(mem, pre, node, post, e, l, root, tree);
          if e.key == mem[node].entries[l].key {
            if e.tid == mem[node].entries[l].tid {
              RemoveHere(pre, node, post, e, l);
              return true;
            }
            WalkOn(mem, pre, node, post, e, l);
            l := l + 1;
          } else {
            DropPairAbsent(Entries(), e);
            RoutedLeafLacks(tree, LOWEST, HIGHEST, height, e);
            return false;
          }
        }
        NextLeaf(next, prev, pre, node, post);
        EndOfWalk(mem, root, tree, pre, node, post, e);
        pre, node, l := pre + [node], next[node], 0;
        if node != NULL { post := post[1..]; }
      }
      DropPairAbsent(Entries(), e);
      RoutedLeafLacks(tree, LOWEST, HIGHEST, height, e);
      return false;
    }

    /** Remove entry l of the leaf `node`. */
    method RemoveHere(ghost pre: seq<Ptr>, node: Ptr, ghost post: seq<Ptr>, ghost e: Pair, l: nat)
      requires Valid() && LeavesOf(root, tree) == pre + [node] + post && node in mem && LeafOk(mem[node])
      requires l < mem[node].num && mem[node].entries[l] == e && Walked(mem, pre, node, post, e, l)
      requires LeafAt(root, tree, e.key) in pre + [node]
      modifies this`mem, this`tree
      ensures Valid() && e in old(Entries()) && Entries() == DropPair(old(Entries()), e)
      ensures forall key :: key != e.key ==> (Reaches(tree, key) <==> Reaches(old(tree), key))
      ensures LeafFor(tree, e.key) == DropPair(LeafFor(old(tree), e.key), e)
    {
      hide *;
      ValidFacts();
      EntriesIs();
      MemFacts();
      ghost var was := mem;
      EntriesAtIs(mem, node);
      var entries := CloseSlot(mem[node].entries, mem[node].num, l);
      mem := mem[node := LeafCell(mem[node].num - 1, entries)];
      RemovedHere(was, mem, next, prev, root, tree, height, pre, node, post, e, l, entries);
      tree := Reread(mem, root, tree);
      MemStays(Store(was, next, prev, brk));
      ValidIs();
      EntriesIs();
    }

    // -------------------------------------------------------------- bulk loading

    /** The greatest keys of consecutive nodes, into the array of a node above. */
    method CopyTops(low: Ptr, from: nat, count: nat, ghost was: Memory, ghost trees: seq<Tree>, ghost tops: seq<int>,
                    ghost h: nat) returns (keys: seq<int>)
      requires Level(was, low, trees, tops, h) && from + count <= |trees| && count <= 14
      requires forall p :: p in was ==> p in mem && mem[p] == was[p]
      ensures |keys| == 14 && forall k :: 0 <= k < count && from + k < |tops| - 1 ==> keys[k] == tops[from + k]
    {
      hide *;
      LevelParts(was, low, trees, tops, h);
      LevelInMemory(was, low, trees, tops, h);
      var junk: int := *;
      keys := seq(14, _ => junk);
      var j := 0;
      while j < count
        invariant j <= count && |keys| == 14
        invariant forall k :: 0 <= k < j && from + k < |tops| - 1 ==> keys[k] == tops[from + k]
      {
        assert Slot(low, from + j) in was;
        keys := keys[j := TopSlot(mem[Slot(low, from + j)])];
        j := j + 1;
      }
    }

    /** The level of inner nodes over a level, iUpper + 1 nodes to a group; a last node left alone
        takes its left neighbour along. */
    method BuildLevel(low: Ptr, nLow: nat, iUpper: nat, ghost trees: seq<Tree>, ghost tops: seq<int>, ghost h: nat)
      returns (high: Ptr, nHigh: nat, ghost cuts: seq<nat>)
      requires MemOk() && Level(mem, low, trees, tops, h) && |trees| == nLow >= 2 && 2 <= iUpper <= 13
      modifies this`mem, this`next, this`prev, this`brk
      ensures MemOk() && Cuts(cuts, nLow) && |tops| == nLow && nHigh == |cuts| - 1 < nLow
      ensures GroupsOf(cuts, nLow, iUpper + 1)
      ensures Level(mem, high, AllAbove(low, trees, tops, cuts), TopsAbove(tops, cuts), h + 1)
      ensures Flat(AllAbove(low, trees, tops, cuts)) == Flat(trees)
      ensures LeavesAt(Run(high, nHigh), AllAbove(low, trees, tops, cuts)) == LeavesAt(Run(low, nLow), trees)
      ensures forall p :: p in old(mem) ==> p in next && p in prev && next[p] == old(next[p]) && prev[p] == old(prev[p])
    {
      hide *;
      MemFacts();
      LevelParts(mem, low, trees, tops, h);
      ghost var was := mem;
      nHigh := (nLow + iUpper) / (iUpper + 1);
      var remainder := nLow % (iUpper + 1);
      GroupCount(nLow, iUpper + 1);
      high := Alloc(nHigh);
      MemFacts();
      var full := if remainder == 0 then nHigh else nHigh - 1;
      cuts := FullNodes(low, high, full, remainder, iUpper, was, trees, tops, h);
      cuts := LastNode(low, nLow, high, full, remainder, iUpper, was, trees, tops, h, cuts);
      assert nHigh == (nLow + (iUpper + 1) - 1) / (iUpper + 1) && remainder == nLow % (iUpper + 1);
      GroupsAre(cuts, nLow, iUpper + 1, nHigh, remainder);
      MemFromKeys();
      SpansAreAbove(mem, low, high, tops, cuts);
      HighNotNull(high);
      LevelUp(was, mem, low, high, trees, tops, h, cuts);
    }

    /** As many nodes with iUpper separators as there are. */
    method FullNodes(low: Ptr, high: Ptr, full: nat, remainder: nat, iUpper: nat, ghost was: Memory,
                     ghost trees: seq<Tree>, ghost tops: seq<int>, ghost h: nat)
      returns (ghost cuts: seq<nat>)
      requires Level(was, low, trees, tops, h) && 2 <= iUpper <= 13
        && |trees| == |tops| == full * (iUpper + 1) + remainder
      requires forall p :: p in was ==> p in mem && mem[p] == was[p] && p < high
      requires forall j :: 0 <= j < full ==> Slot(high, j) in mem
      modifies this`mem
      ensures SpanCells(mem, low, high, tops, cuts) && |cuts| == full + 1 && cuts[full] == |trees| - remainder
      ensures forall j :: 0 <= j < full ==> cuts[j + 1] == cuts[j] + iUpper + 1
      ensures mem.Keys == old(mem.Keys) && forall p :: p in was ==> p in mem && mem[p] == was[p]
    {
      hide *;
      cuts := [0];
      NoSpans(mem, low, high, tops);
      var i, curr := 0, 0;
      while i < full
        invariant i <= full && |cuts| == i + 1 && cuts[i] == curr
          && curr + (full - i) * (iUpper + 1) + remainder == |trees|
        invariant SpanCells(mem, low, high, tops, cuts)
        invariant forall j :: 0 <= j < i ==> cuts[j + 1] == cuts[j] + iUpper + 1
        invariant mem.Keys == old(mem.Keys) && forall p :: p in was ==> p in mem && mem[p] == was[p]
      {
        OneGroupLess(full - i, iUpper + 1);
        LeftOver(full - i - 1, iUpper + 1);
        NodeOver(low, high, i, curr, iUpper + 1, was, trees, tops, h, cuts);
        curr := curr + iUpper + 1;
        cuts := cuts + [curr];
        i := i + 1;
      }
    }

    /** Node i of the new level takes the next nodes of the level below. */
    method NodeOver(low: Ptr, high: Ptr, i: nat, curr: nat, count: nat, ghost was: Memory, ghost trees: seq<Tree>,
                    ghost tops: seq<int>, ghost h: nat, ghost cuts: seq<nat>)
      requires Level(was, low, trees, tops, h) && 2 <= count <= 14 && |trees| == |tops| && curr + count <= |trees|
      requires forall p :: p in was ==> p in mem && mem[p] == was[p] && p < high
      requires Slot(high, i) in mem && |cuts| == i + 1 && cuts[i] == curr && SpanCells(mem, low, high, tops, cuts)
      modifies this`mem
      ensures SpanCells(mem, low, high, tops, cuts + [curr + count])
      ensures mem.Keys == old(mem.Keys) && forall p :: p in was ==> p in mem && mem[p] == was[p]
    {
      hide *;
      var keys := CopyTops(low, curr, count, was, trees, tops, h);
      var c := InnerCell(count - 1, keys, Slot(low, curr));
      SpanIs(c, low, tops, curr, curr + count);
      SpanAdded(mem, low, high, tops, cuts, c, curr + count);
      SlotBeyond(high, i);
      mem := mem[Slot(high, i) := c];
    }

    /** A node for the rest.  A rest of one borrows the last kid of the node before. */
    method LastNode(low: Ptr, nLow: nat, high: Ptr, full: nat, remainder: nat, iUpper: nat, ghost was: Memory,
                    ghost trees: seq<Tree>, ghost tops: seq<int>, ghost h: nat, ghost cuts0: seq<nat>)
      returns (ghost cuts: seq<nat>)
      requires Level(was, low, trees, tops, h) && 2 <= iUpper <= 13 && remainder <= iUpper
        && remainder <= nLow == |trees| == |tops|
      requires forall p :: p in was ==> p in mem && mem[p] == was[p] && p < high
      requires SpanCells(mem, low, high, tops, cuts0) && |cuts0| == full + 1 && cuts0[full] == |trees| - remainder
      requires forall j :: 0 <= j < full ==> cuts0[j + 1] == cuts0[j] + iUpper + 1
      requires remainder <= 1 ==> full > 0
      requires forall j :: 0 <= j < full + (if remainder == 0 then 0 else 1) ==> Slot(high, j) in mem
      modifies this`mem
      ensures SpanCells(mem, low, high, tops, cuts) && |cuts| == full + (if remainder == 0 then 1 else 2) >= 2
        && cuts[|cuts| - 1] == |trees|
      ensures GroupsAndRest(cuts, iUpper + 1, remainder)
      ensures mem.Keys == old(mem.Keys) && forall p :: p in was ==> p in mem && mem[p] == was[p]
    {
      hide *;
      cuts := cuts0;
      if remainder == 1 {
        SlotBeyond(high, full - 1);
        SlotBeyond(high, full);
        assert Slot(high, full) in mem;
        SpanAt(mem, low, high, tops, cuts, full - 1);
        var left := mem[Slot(high, full - 1)];
        var junk: int := *;
        var c := InnerCell(1, seq(14, _ => junk)[0 := left.keys[iUpper]], Slot(low, nLow - 2));
        SpanShortened(mem, low, high, tops, cuts);
        mem := mem[Slot(high, full - 1) := InnerCell(left.num - 1, left.keys, left.first)];
        cuts := cuts[..full] + [cuts[full] - 1];
        SpanIs(c, low, tops, nLow - 2, nLow);
        SpanAdded(mem, low, high, tops, cuts, c, nLow);
        mem := mem[Slot(high, full) := c];
        cuts := cuts + [nLow];
        RestBorrows(cuts0, full, iUpper + 1, cuts);
      } else if remainder > 1 {
        assert Slot(high, full) in mem;
        NodeOver(low, high, full, nLow - remainder, remainder, was, trees, tops, h, cuts);
        cuts := cuts + [nLow];
        RestFollows(cuts0, full, iUpper + 1, cuts, remainder);
      } else {
        RestFollows(cuts0, full, iUpper + 1, cuts, remainder);
      }
    }

    /** Fill leaves with lUpper entries each, linked to a list. */
    method BuildLeaves(a: seq<Pair>, lUpper: nat) returns (start: Ptr, nLeaf: nat, ghost cuts: seq<nat>)
      requires MemOk() && 1 <= lUpper <= 6 && |a| > 0
      modifies this`mem, this`next, this`prev, this`brk
      ensures MemOk() && start != NULL && LeafCuts(a, cuts) && nLeaf == |cuts| - 1 && LeafCells(mem, start, a, cuts)
      ensures |a| > lUpper ==> nLeaf >= 2
      ensures Linked(next, prev, Run(start, nLeaf)) && LeafGroups(cuts, |a|, lUpper)
    {
      hide *;
      MemFacts();
      nLeaf := (|a| + lUpper - 1) / lUpper;
      LeafCount(|a|, lUpper, 0);
      start := Alloc(nLeaf);
      MemFacts();
      HighNotNull(start);
      FirstLeaf(start, nLeaf, a);
      cuts := FillAllLeaves(start, nLeaf, a, lUpper);
      MemFromKeys();
    }

    method FirstLeaf(start: Ptr, nLeaf: nat, ghost a: seq<Pair>)
      requires next.Keys == mem.Keys && prev.Keys == mem.Keys && nLeaf > 0 && forall j ::
        0 <= j < nLeaf ==> Slot(start, j) in mem
      modifies this`mem, this`prev
      ensures mem.Keys == old(mem.Keys) && prev.Keys == mem.Keys
      ensures ClosedLeaves(mem, start, a, [0]) && LeavesChained(next, prev, start, 0)
      ensures Slot(start, 0) in mem && LeafCellIs(mem[Slot(start, 0)], a, 0, 0)
    {
      hide *;
      SlotZero(start);
      var junk: Pair := *;
      assert Slot(start, 0) in mem;
      mem := mem[start := LeafCell(0, seq(6, _ => junk))];
      prev := prev[start := NULL];
      NoLeaves(mem, start, a);
      EmptyLeaf(seq(6, _ => junk), a, 0);
      ChainStart(next, prev, start);
    }

    method FillAllLeaves(start: Ptr, nLeaf: nat, a: seq<Pair>, lUpper: nat) returns (ghost cuts: seq<nat>)
      requires next.Keys == mem.Keys && prev.Keys == mem.Keys && start != NULL && forall j ::
        0 <= j < nLeaf ==> Slot(start, j) in mem
      requires 1 <= lUpper <= 6 && |a| > 0 && nLeaf == (|a| + lUpper - 1) / lUpper && nLeaf > 0
      requires ClosedLeaves(mem, start, a, [0]) && LeavesChained(next, prev, start, 0)
      requires LeafCellIs(mem[Slot(start, 0)], a, 0, 0)
      modifies this`mem, this`next, this`prev
      ensures mem.Keys == old(mem.Keys) && next.Keys == mem.Keys && prev.Keys == mem.Keys
      ensures LeafCuts(a, cuts) && nLeaf == |cuts| - 1 && LeafCells(mem, start, a, cuts)
      ensures |a| > lUpper ==> nLeaf >= 2
      ensures Linked(next, prev, Run(start, nLeaf)) && LeafGroups(cuts, |a|, lUpper)
    {
      hide *;
      cuts := [0];
      var i, m := 0, 0;
      while i < |a|
        invariant i <= |a| && |cuts| == m + 1 && cuts[m] == m * lUpper && cuts[m] <= i <= cuts[m] + lUpper
          && (i > 0 ==> i > cuts[m])
        invariant m < nLeaf && forall j :: 0 <= j < m ==> cuts[j + 1] == cuts[j] + lUpper
        invariant ClosedLeaves(mem, start, a, cuts) && Slot(start, m) in mem
          && LeafCellIs(mem[Slot(start, m)], a, cuts[m], i)
        invariant mem.Keys == old(mem.Keys) && next.Keys == mem.Keys && prev.Keys == mem.Keys
        invariant LeavesChained(next, prev, start, m)
      {
        LeafCellNum(mem[Slot(start, m)], a, cuts[m], i);
        if mem[Slot(start, m)].num >= lUpper {
          OneGroupLess(m + 1, lUpper);
          LeafCount(|a|, lUpper, m + 1);
          CloseLeaf(mem, start, a, cuts, i);
          cuts := cuts + [i];
          m := m + 1;
          assert Slot(start, m) in old(mem);
          OpenLeaf(start, m, a, cuts, i);
        }
        AppendToLeaf(start, m, a, cuts, i);
        i := i + 1;
      }
      LeafCount(|a|, lUpper, m);
      AllLeavesFilled(mem, next, prev, start, a, cuts);
      ChainHas(next, prev, start, m);
      next := next[Slot(start, m) := NULL];
      cuts := cuts + [|a|];
      LeafGroupsAre(cuts, |a|, lUpper);
    }

    /** Start filling leaf m. */
    method OpenLeaf(start: Ptr, m: nat, ghost a: seq<Pair>, ghost cuts: seq<nat>, ghost i: nat)
      requires m > 0 && Slot(start, m) in mem && next.Keys == mem.Keys && prev.Keys == mem.Keys && i <= |a|
      requires ClosedLeaves(mem, start, a, cuts) && |cuts| == m + 1 && LeavesChained(next, prev, start, m - 1)
      modifies this`mem, this`next, this`prev
      ensures mem.Keys == old(mem.Keys) && next.Keys == mem.Keys && prev.Keys == mem.Keys
      ensures ClosedLeaves(mem, start, a, cuts) && LeavesChained(next, prev, start, m)
      ensures Slot(start, m) in mem && LeafCellIs(mem[Slot(start, m)], a, i, i)
    {
      hide *;
      var junk: Pair := *;
      var c := LeafCell(0, seq(6, _ => junk));
      ClosedPut(mem, start, a, cuts, m, c);
      ChainMore(next, prev, start, m);
      ChainHas(next, prev, start, m - 1);
      mem := mem[Slot(start, m) := c];
      prev := prev[Slot(start, m) := Slot(start, m - 1)];
      next := next[Slot(start, m - 1) := Slot(start, m)];
      EmptyLeaf(c.entries, a, i);
    }

    method AppendToLeaf(start: Ptr, m: nat, a: seq<Pair>, ghost cuts: seq<nat>, i: nat)
      requires Slot(start, m) in mem && |cuts| == m + 1 && i < |a| && i < cuts[m] + 6
      requires ClosedLeaves(mem, start, a, cuts) && LeafCellIs(mem[Slot(start, m)], a, cuts[m], i)
      modifies this`mem
      ensures mem.Keys == old(mem.Keys) && ClosedLeaves(mem, start, a, cuts)
      ensures Slot(start, m) in mem && LeafCellIs(mem[Slot(start, m)], a, cuts[m], i + 1)
    {
      hide *;
      var c := mem[Slot(start, m)];
      LeafCellNum(c, a, cuts[m], i);
      AppendEntry(c, a, cuts[m], i);
      var c' := LeafCell(c.num + 1, c.entries[c.num := a[i]]);
      ClosedPut(mem, start, a, cuts, m, c');
      mem := mem[Slot(start, m) := c'];
    }

    /** Levels of inner nodes up to a single root. */
    method BuildLevels(start: Ptr, nLeaf: nat, iUpper: nat, ghost lUpper: nat, ghost size: nat, ghost trees0: seq<Tree>,
                       ghost tops0: seq<int>)
      returns (top: Ptr, ghost trees: seq<Tree>, ghost tops: seq<int>, ghost h: nat)
      requires MemOk() && Level(mem, start, trees0, tops0, 0) && |trees0| == nLeaf >= 2 && 2 <= iUpper <= 13
      requires lUpper > 0 && Filled(trees0, iUpper, lUpper, size, 0)
      requires Linked(next, prev, LeavesAt(Run(start, nLeaf), trees0))
      modifies this`mem, this`next, this`prev, this`brk
      ensures MemOk() && |trees| == 1 && h > 0 && Level(mem, top, trees, tops, h) && Flat(trees) == Flat(trees0)
      ensures Linked(next, prev, LeavesAt(Run(top, 1), trees)) && Filled(trees, iUpper, lUpper, size, h)
    {
      hide *;
      var n := nLeaf;
      top, trees, tops, h := start, trees0, tops0, 0;
      ghost var leaves := LeavesAt(Run(start, nLeaf), trees0);
      while n > 1
        invariant MemOk() && n == |trees| >= 1 && Level(mem, top, trees, tops, h) && Flat(trees) == Flat(trees0)
        invariant LeavesAt(Run(top, n), trees) == leaves && Linked(next, prev, leaves)
        invariant n >= 2 || h > 0
        invariant Filled(trees, iUpper, lUpper, size, h)
        decreases n
      {
        ghost var next0, prev0 := next, prev;
        MemFacts();
        ghost var cuts, below := [], top;
        top, n, cuts := BuildLevel(top, n, iUpper, trees, tops, h);
        LinkedFrame(next0, prev0, next, prev, leaves);
        AboveFilled(below, trees, tops, cuts, iUpper, lUpper, size, h);
        trees, tops, h := AllAbove(below, trees, tops, cuts), TopsAbove(tops, cuts), h + 1;
        LevelParts(mem, top, trees, tops, h);
      }
    }

    /** Memory with nothing handed out. */
    constructor ()
      ensures MemOk()
    {
      root, mem, next, prev, brk := NULL, map[], map[], map[], 1;
    }

    /** Point the root at a new tree over a sorted array: leaves of lUpper entries and inner nodes of iUpper
        separators, but for the last ones of each level. */
    method BulkLoad(a: seq<Pair>, iUpper: nat, lUpper: nat)
      requires MemOk() && Sorted(a) && KeysBetween(a, LOWEST, HIGHEST)
      requires 2 <= iUpper <= 13 && 1 <= lUpper <= 6 && |a| > lUpper
      modifies this
      ensures Valid() && Entries() == a && AllReachable(tree)
      ensures Filled([tree], iUpper, lUpper, |a|, height)
    {
      hide *;
      var low, n, top;
      ghost var cuts, trees, tops, h;
      low, n, cuts := BuildLeaves(a, lUpper);
      LeafLevel(mem, low, a, cuts);
      LeafTreesFilled(a, cuts, iUpper, lUpper);
      top, trees, tops, h := BuildLevels(low, n, iUpper, lUpper, |a|, LeafTrees(a, cuts), LeafTops(a, cuts));
      assert trees == [trees[0]];
      root, tree, height := top, trees[0], h;
      TopLevel(mem, next, prev, root, trees, tops, h, LeavesAt(Run(root, 1), trees));
      ValidIs();
      EntriesIs();
    }
  }

  /** Groups of w and a rest, which takes one from the group before if it is a single one. */
  ghost predicate GroupsAndRest(cuts: seq<nat>, w: nat, remainder: nat) {
    && |cuts| >= 2
    && (forall j :: 0 <= j < |cuts| - 3 ==> cuts[j + 1] == cuts[j] + w)
    && (|cuts| >= 3 ==> cuts[|cuts| - 2] == cuts[|cuts| - 3] + if remainder == 1 then w - 1 else w)
    && cuts[|cuts| - 1] <= cuts[|cuts| - 2] + w
  }

  lemma RestBorrows(cuts0: seq<nat>, full: nat, w: nat, cuts: seq<nat>)
    requires w >= 2 && |cuts0| == full + 1 && full > 0 && forall j :: 0 <= j < full ==> cuts0[j + 1] == cuts0[j] + w
    requires cuts0[full] > 0 && cuts == cuts0[..full] + [cuts0[full] - 1] + [cuts0[full] + 1]
    ensures GroupsAndRest(cuts, w, 1)
  {
    assert forall j :: 0 <= j < full ==> cuts[j] == cuts0[j];
  }

  lemma RestFollows(cuts0: seq<nat>, full: nat, w: nat, cuts: seq<nat>, remainder: nat)
    requires |cuts0| == full + 1 && forall j :: 0 <= j < full ==> cuts0[j + 1] == cuts0[j] + w
    requires remainder != 1 && remainder < w && (remainder == 0 ==> full > 0)
    requires cuts == if remainder == 0 then cuts0 else cuts0 + [cuts0[full] + remainder]
    ensures GroupsAndRest(cuts, w, remainder)
  {
    assert forall j :: 0 <= j <= full ==> cuts[j] == cuts0[j];
  }

  lemma GroupsAre(cuts: seq<nat>, n: nat, w: nat, m: nat, remainder: nat)
    requires w > 0 && GroupsAndRest(cuts, w, remainder) && |cuts| - 1 == m == (n + w - 1) / w && remainder == n % w
    ensures GroupsOf(cuts, n, w)
  {
  }

  lemma LeafGroupsAre(cuts: seq<nat>, n: nat, w: nat)
    requires w > 0 && |cuts| >= 2 && |cuts| - 1 == (n + w - 1) / w
    requires forall j :: 0 <= j < |cuts| - 2 ==> cuts[j + 1] == cuts[j] + w
    requires cuts[|cuts| - 1] <= cuts[|cuts| - 2] + w
    ensures LeafGroups(cuts, n, w)
  {
  }

  /** The leaves up to m are linked; the last one has no successor yet. */
  ghost predicate LeavesChained(next: Links, prev: Links, start: Ptr, m: nat) {
    && (forall j :: 0 <= j <= m ==> Slot(start, j) in next && Slot(start, j) in prev)
    && (forall k :: 0 < k <= m ==> prev[Slot(start, k)] == Slot(start, k - 1))
    && (forall k :: 0 <= k < m ==> next[Slot(start, k)] == Slot(start, k + 1))
    && prev[Slot(start, 0)] == NULL
  }

  lemma ChainMore(next: Links, prev: Links, start: Ptr, m: nat)
    requires m > 0 && LeavesChained(next, prev, start, m - 1) && Slot(start, m) in next && Slot(start, m) in prev
    ensures LeavesChained(next[Slot(start, m - 1) := Slot(start, m)], prev[Slot(start, m) := Slot(start, m - 1)],
      start, m)
  {
  }

  lemma AllLeavesFilled(mem: Memory, next: Links, prev: Links, start: Ptr, a: seq<Pair>, cuts: seq<nat>)
    requires ClosedLeaves(mem, start, a, cuts) && |cuts| >= 1 && start != NULL
    requires cuts[|cuts| - 1] < |a| <= cuts[|cuts| - 1] + 6 && LeavesChained(next, prev, start, |cuts| - 1)
    requires Slot(start, |cuts| - 1) in mem && LeafCellIs(mem[Slot(start, |cuts| - 1)], a, cuts[|cuts| - 1], |a|)
    ensures LeafCuts(a, cuts + [|a|]) && LeafCells(mem, start, a, cuts + [|a|])
    ensures Linked(next[Slot(start, |cuts| - 1) := NULL], prev, Run(start, |cuts|))
  {
    hide *;
    CloseLeaf(mem, start, a, cuts, |a|);
    ClosedAll(mem, start, a, cuts + [|a|]);
    ChainEnd(next, prev, start, |cuts| - 1);
  }

  lemma ChainHas(next: Links, prev: Links, start: Ptr, m: nat)
    requires LeavesChained(next, prev, start, m)
    ensures Slot(start, m) in next && Slot(start, m) in prev
  {
  }

  lemma ChainStart(next: Links, prev: Links, start: Ptr)
    requires start in next && start in prev && prev[start] == NULL
    ensures LeavesChained(next, prev, start, 0)
  {
  }

  lemma ChainEnd(next: Links, prev: Links, start: Ptr, m: nat)
    requires LeavesChained(next, prev, start, m) && start != NULL
    ensures Linked(next[Slot(start, m) := NULL], prev, Run(start, m + 1))
  {
    hide Linked;
    SlotZero(start);
    LinkedRun(next[Slot(start, m) := NULL], prev, start, m + 1);
  }

  /** A level of one tree. */
  lemma TopLevel(mem: Memory, next: Links, prev: Links, root: Ptr, trees: seq<Tree>, tops: seq<int>, h: nat,
                 leaves: seq<Ptr>)
    requires Level(mem, root, trees, tops, h) && |trees| == 1 && h > 0
    requires LeavesAt(Run(root, 1), trees) == leaves && Linked(next, prev, leaves)
    ensures TreeOk(mem, next, prev, root, trees[0], h)
    ensures Contents(trees[0]) == Flat(trees) && AllReachable(trees[0])
  {
    hide *;
    LevelParts(mem, root, trees, tops, h);
    RunOne(root, trees[0]);
    assert trees == [trees[0]];
    FlatOne(trees[0]);
    FirstLevelTree(trees[0], tops, h);
    TreeOkIs(mem, next, prev, root, trees[0], h);
  }

  lemma FirstLevelTree(t: Tree, tops: seq<int>, h: nat)
    requires |tops| == 1 && Ascending(tops) && LevelTree(t, LowTop(tops, 0), tops[0], h)
    ensures Within(t, LOWEST, HIGHEST, h) && AllReachable(t)
  {
    hide Within, AllReachable;
    WithinWider(t, LOWEST, tops[0], HIGHEST, h);
  }

  // ---------------------------------------------------------------- the whole tree

  ghost predicate TreeOk(mem: Memory, next: Links, prev: Links, root: Ptr, tree: Tree, h: nat) {
    && h > 0 && Within(tree, LOWEST, HIGHEST, h)
    && Holds(mem, [root], [tree])
    && Linked(next, prev, LeavesOf(root, tree))
  }

  lemma TreeOkParts(mem: Memory, next: Links, prev: Links, root: Ptr, tree: Tree, h: nat)
    requires TreeOk(mem, next, prev, root, tree, h)
    ensures h > 0 && Within(tree, LOWEST, HIGHEST, h) && tree.Node?
    ensures Holds(mem, [root], [tree]) && Linked(next, prev, LeavesOf(root, tree))
    ensures root in mem && CellFor(mem[root], tree) && Below(mem, tree) && TreeApart(tree) && root !in Under(tree)
      && root != NULL
  {
    hide Under, Below, TreeApart, Holds, CellFor, Linked;
    HoldsParts(mem, [root], [tree], 0);
  }

  ghost function TreeAfter(tree: Tree, newChild: Ptr, o: Outcome): Tree {
    match o case Stays(x) => x case Splits(x, s, y) => Node([s], newChild, [x, y])
  }

  ghost function HeightAfter(h: nat, o: Outcome): nat {
    if o.Stays? then h else h + 1
  }

  lemma RunOne(root: Ptr, tree: Tree)
    ensures Run(root, 1) == [root] && Slot(root, 0) == root && |[tree]| == 1
    ensures LeavesAt([root], [tree]) == LeavesOf(root, tree)
  {
    LeavesOne(root, tree);
  }

  lemma RootReady(st: Store, root: Ptr, e: Pair, tree: Tree, h: nat)
    requires st.next.Keys == st.mem.Keys && st.prev.Keys == st.mem.Keys && forall p :: p in st.mem ==> p < st.brk
    requires TreeOk(st.mem, st.next, st.prev, root, tree, h) && LOWEST <= e.key <= HIGHEST
    ensures Ready(st, root, NULL, 0, e, root, [tree], LOWEST, HIGHEST, h, [], [])
  {
    hide Under, Below, TreeApart, Holds, CellFor, Linked, LeavesOf, LeavesAt, Occupied;
    TreeOkParts(st.mem, st.next, st.prev, root, tree, h);
    RunOne(root, tree);
    assert [] + LeavesOf(root, tree) + [] == LeavesOf(root, tree);
  }

  lemma RootDone(was: Store, st: Store, root: Ptr, root': Ptr, e: Pair, tree: Tree, h: nat, newChild: Ptr, o: Outcome)
    requires Done(was, st, 0, e, root, [tree], LOWEST, HIGHEST, h, [], [], newChild, o) && h > 0
    requires o.Stays? ==> root' == root
    requires o.Splits? ==> NewRoot(st.mem, root', o.s, newChild, LocsAfter(root, newChild, 1, o),
      KidsAfter([tree], 0, o))
    ensures TreeOk(st.mem, st.next, st.prev, root', TreeAfter(tree, newChild, o), HeightAfter(h, o))
    ensures Contents(TreeAfter(tree, newChild, o)) == PutPair(Contents(tree), e)
    ensures forall key :: Reaches(TreeAfter(tree, newChild, o), key) <==> Reaches(tree, key) || key == e.key
  {
    hide *;
    var x := TreeAfter(tree, newChild, o);
    DoneAtRoot(was, st, e, root, tree, h, newChild, o);
    TreeAfterIs(tree, newChild, o, h);
    RunOne(root, x);
    if o.Splits? {
      RootPlaces(newChild, root, tree, o);
      NewRootHolds(st.mem, root', o.s, newChild, o.x, o.y);
      LeavesOfNode(root', x);
      RootParted(tree, o.x, o.s, o.y, newChild, e, LOWEST, HIGHEST, h);
    } else {
      GrewParts(tree, o.x, e, LOWEST, HIGHEST, h);
    }
    TreeOkIs(st.mem, st.next, st.prev, root', x, HeightAfter(h, o));
  }

  lemma TreeOkIs(mem: Memory, next: Links, prev: Links, root: Ptr, tree: Tree, h: nat)
    requires h > 0 && Within(tree, LOWEST, HIGHEST, h) && Holds(mem, [root], [tree])
      && Linked(next, prev, LeavesOf(root, tree))
    ensures TreeOk(mem, next, prev, root, tree, h)
  {
  }

  lemma TreeAfterIs(tree: Tree, newChild: Ptr, o: Outcome, h: nat)
    ensures TreeAfter(tree, newChild, o) == if o.Stays? then o.x else Node([o.s], newChild, [o.x, o.y])
    ensures HeightAfter(h, o) == if o.Stays? then h else h + 1
  {
  }

  lemma DoneAtRoot(was: Store, st: Store, e: Pair, root: Ptr, tree: Tree, h: nat, newChild: Ptr, o: Outcome)
    requires Done(was, st, 0, e, root, [tree], LOWEST, HIGHEST, h, [], [], newChild, o)
    ensures if o.Stays? then Grew(tree, o.x, e, LOWEST, HIGHEST, h)
      else Parted(tree, o.x, o.s, o.y, e, LOWEST, HIGHEST, h)
    ensures Holds(st.mem, LocsAfter(root, newChild, 1, o), KidsAfter([tree], 0, o))
    ensures Linked(st.next, st.prev, LeavesAt(LocsAfter(root, newChild, 1, o), KidsAfter([tree], 0, o)))
    ensures o.Stays? ==> LocsAfter(root, newChild, 1, o) == [root] && KidsAfter([tree], 0, o) == [o.x]
  {
    hide Holds, Linked, LeavesAt, Grew, Parted, Kept, Occupied;
    var leaves := LeavesAt(LocsAfter(root, newChild, 1, o), KidsAfter([tree], 0, o));
    assert [] + leaves + [] == leaves;
    assert o.Stays? ==> [tree][0 := o.x] == [o.x];
    RunIsOne(root);
  }

  lemma RunIsOne(root: Ptr)
    ensures Run(root, 1) == [root]
  {
    assert Slot(root, 0) == root;
  }

  lemma RootPlaces(newChild: Ptr, root: Ptr, tree: Tree, o: Outcome)
    requires o.Splits?
    ensures LocsAfter(root, newChild, 1, o) == Run(newChild, 2) && KidsAfter([tree], 0, o) == [o.x, o.y]
  {
    assert Spliced([tree], 0, [o.x, o.y]) == [o.x, o.y];
  }

  lemma NewRootHolds(mem: Memory, root: Ptr, s: int, newChild: Ptr, x: Tree, y: Tree)
    requires NewRoot(mem, root, s, newChild, Run(newChild, 2), [x, y]) && Holds(mem, Run(newChild, 2), [x, y])
    ensures Holds(mem, [root], [Node([s], newChild, [x, y])])
  {
    hide Holds, Occupied, Below, TreeApart, Under;
    var t := Node([s], newChild, [x, y]);
    NodeHolds(mem, t);
    assert CellFor(mem[root], t);
    OneHolds(mem, root, t);
  }

  lemma OneHolds(mem: Memory, root: Ptr, t: Tree)
    requires root != NULL && root in mem && CellFor(mem[root], t) && Below(mem, t) && TreeApart(t) && root !in Under(t)
    ensures Holds(mem, [root], [t])
  {
    hide CellFor, Below, TreeApart, Under;
  }

  lemma RootParted(t: Tree, x: Tree, s: int, y: Tree, newChild: Ptr, e: Pair, lo: int, hi: int, h: nat)
    requires Parted(t, x, s, y, e, lo, hi, h)
    ensures Within(Node([s], newChild, [x, y]), lo, hi, h + 1)
    ensures Contents(Node([s], newChild, [x, y])) == PutPair(Contents(t), e)
    ensures forall key :: Reaches(Node([s], newChild, [x, y]), key) <==> Reaches(t, key) || key == e.key
  {
    hide PutPair, KeyIndex, HasKey;
    var root := Node([s], newChild, [x, y]);
    PartedParts(t, x, s, y, e, lo, hi, h);
    TwoBranches(x, s, y, lo, hi, h);
    FlatTwo(x, y);
    forall key
      ensures Reaches(root, key) <==> Reaches(t, key) || key == e.key
    {
      KeyIndexIs([s], key, if key <= s then 0 else 1);
      RouteIs(root, key);
    }
  }

  lemma TwoBranches(x: Tree, s: int, y: Tree, lo: int, hi: int, h: nat)
    requires Within(x, lo, s, h) && Within(y, s, hi, h) && lo <= s <= hi
    ensures Branches([s], [x, y], lo, hi, h)
  {
    hide Within;
  }

  lemma GrewParts(t: Tree, x: Tree, e: Pair, lo: int, hi: int, h: nat)
    requires Grew(t, x, e, lo, hi, h)
    ensures Within(x, lo, hi, h) && Contents(x) == PutPair(Contents(t), e)
    ensures forall key :: Reaches(x, key) <==> Reaches(t, key) || key == e.key
  {
  }

  lemma ChainEnds(next: Links, prev: Links, before: Ptr, row: seq<Ptr>, after: Ptr)
    requires Chain(next, prev, before, row, after) && row != []
    ensures row[0] in prev && prev[row[0]] == before && LastOf(row) in next && next[LastOf(row)] == after
  {
  }

  lemma RunHas(group: Ptr, n: nat)
    requires n > 0
    ensures Run(group, n)[0] == group && LastOf(Run(group, n)) == Slot(group, n - 1)
    ensures forall p :: p in Run(group, n) <==> group <= p < group + n
  {
    assert Run(group, n)[0] == Slot(group, 0);
    forall p | group <= p < group + n ensures p in Run(group, n) {
      assert Run(group, n)[p - group] == Slot(group, p - group);
    }
  }

  lemma PlacesOfSmallAndBig(oldGroup: Ptr, newGroup: Ptr, n: nat)
    requires n <= 15
    ensures n < 15 ==> Places(oldGroup, newGroup, n) == Run(newGroup, n + 1)
  {
  }

  lemma SlotsFromPlaces(oldGroup: Ptr, newGroup: Ptr, n: nat, s: set<Ptr>)
    requires n <= 15 && forall j :: 0 <= j <= n ==> PlaceAt(oldGroup, newGroup, n, j) in s
    ensures n < 15 ==> forall j :: 0 <= j <= n ==> Slot(newGroup, j) in s
    ensures n == 15 ==> forall j :: 0 <= j < 8 ==> Slot(newGroup, j) in s
  {
    if n == 15 {
      forall j | 0 <= j < 8 ensures Slot(newGroup, j) in s {
        assert PlaceAt(oldGroup, newGroup, n, j + 8) in s;
      }
    } else {
      forall j | 0 <= j <= n ensures Slot(newGroup, j) in s {
        assert PlaceAt(oldGroup, newGroup, n, j) in s;
      }
    }
  }

  lemma RunFacts(oldGroup: Ptr, newGroup: Ptr, n: nat, pre: seq<Ptr>, post: seq<Ptr>, n0: Links, p0: Links)
    requires 0 < n <= 15 && oldGroup != NULL && newGroup != NULL
    requires n0.Keys == p0.Keys && Linked(n0, p0, pre + Run(oldGroup, n) + post)
    requires forall p :: p in n0 ==> p < newGroup
    ensures oldGroup + n <= newGroup
    ensures forall j :: 0 <= j < n ==> Slot(oldGroup, j) in n0
    ensures forall p :: p in pre || p in post ==> !(oldGroup <= p < oldGroup + n) && p < newGroup
    ensures Distinct(pre + Places(oldGroup, newGroup, n) + post)
  {
    hide Linked, Distinct, NewPlaces, Places;
    var group := Run(oldGroup, n);
    ListInLinks(n0, p0, pre, group, post);
    DistinctParts(pre, group, post);
    RunHas(oldGroup, n);
    forall j | 0 <= j < n ensures Slot(oldGroup, j) in n0 { assert group[j] in n0; }
    assert Slot(oldGroup, n - 1) < newGroup;
    PlacesAreNew(oldGroup, newGroup, n, n0.Keys);
    DistinctMoved(pre, group, Places(oldGroup, newGroup, n), post, n0.Keys);
  }

  lemma ListInLinks(next: Links, prev: Links, pre: seq<Ptr>, group: seq<Ptr>, post: seq<Ptr>)
    requires Linked(next, prev, pre + group + post)
    ensures Distinct(pre + group + post)
    ensures forall p :: p in pre || p in group || p in post ==> p in next
  {
    hide Distinct;
    var all := pre + group + post;
    forall p | p in pre || p in group || p in post ensures p in next {
      assert p in all;
    }
  }

  // ---------------------------------------------------------------- cells around an inner node

  ghost predicate GroupThere(mem: Memory, node: Ptr, parent: Ptr, first: Ptr, kids: seq<Tree>, i: nat) {
    && i < |kids| <= 15 && node == Slot(first, i) && first != NULL
    && (forall j :: 0 <= j < |kids| ==> Slot(first, j) in mem)
    && CellFor(mem[node], kids[i])
    && (parent == NULL ==> |kids| == 1)
    && (parent != NULL ==> ParentOk(mem, parent, first, |kids|))
  }

  lemma GroupThereParts(mem: Memory, node: Ptr, parent: Ptr, first: Ptr, kids: seq<Tree>, i: nat)
    requires GroupThere(mem, node, parent, first, kids, i)
    ensures i < |kids| <= 15 && node == Slot(first, i) && first != NULL && node in mem && CellFor(mem[node], kids[i])
    ensures forall j :: 0 <= j < |kids| ==> Slot(first, j) in mem
    ensures parent == NULL ==> |kids| == 1 && node == first && i == 0
    ensures parent != NULL ==>
      parent in mem && mem[parent].InnerCell? && mem[parent].num + 1 == |kids| && mem[parent].first == first
  {
    hide CellFor;
  }

  /** The insertion below node i does not touch the cells of its group, nor that of its parent. */
  lemma GroupKept(was: Store, mid: Store, node: Ptr, parent: Ptr, i: nat, e: Pair, first: Ptr, kids: seq<Tree>, lo: int,
                  hi: int, h: nat, pre: seq<Ptr>, post: seq<Ptr>)
    requires Ready(was, node, parent, i, e, first, kids, lo, hi, h, pre, post)
    requires i < |kids| && Kept(was.mem, mid.mem, Under(kids[i]))
    ensures GroupThere(mid.mem, node, parent, first, kids, i)
  {
    hide *;
    var locs := Run(first, |kids|);
    ReadyParts(was, node, parent, i, e, first, kids, lo, hi, h, pre, post);
    ReadySlots(was, node, parent, i, e, first, kids, lo, hi, h, pre, post);
    LocsBeside(was.mem, locs, kids, i);
    HoldsParts(was.mem, locs, kids, i);
    InOccupied(locs, kids, i);
    KeptParts(was.mem, mid.mem, Under(kids[i]));
    GroupThereIs(mid.mem, node, parent, first, kids, i);
  }

  lemma KeptParts(mem: Memory, mem': Memory, but: set<Ptr>)
    requires Kept(mem, mem', but)
    ensures forall p :: p in mem ==> p in mem'
    ensures forall p :: p in mem && p !in but ==> mem'[p] == mem[p]
  {
  }

  lemma GroupThereIs(mem: Memory, node: Ptr, parent: Ptr, first: Ptr, kids: seq<Tree>, i: nat)
    requires i < |kids| <= 15 && node == Slot(first, i) && first != NULL
    requires forall j :: 0 <= j < |kids| ==> Slot(first, j) in mem
    requires CellFor(mem[node], kids[i])
    requires parent == NULL ==> |kids| == 1
    requires parent != NULL ==>
      parent in mem && mem[parent].InnerCell? && mem[parent].num + 1 == |kids| && mem[parent].first == first
    ensures GroupThere(mem, node, parent, first, kids, i)
  {
    hide CellFor;
  }

  lemma HeightOfCell(mem: Memory, node: Ptr, first: Ptr, kids: seq<Tree>, i: nat, lo: int, hi: int, h: nat)
    requires i < |kids| && Holds(mem, Run(first, |kids|), kids) && node == Slot(first, i) && Within(kids[i], lo, hi, h)
    ensures node in mem && (mem[node].LeafCell? <==> h == 0)
  {
    hide Under, Below, TreeApart;
  }

  lemma BelowBrkIs(mem: Memory, brk: Ptr)
    requires forall p :: p in mem ==> p < brk
    ensures BelowBrk(mem, brk)
  {
  }

  lemma InBetween(p: Ptr, brk: Ptr)
    requires brk == p + 1 && p > 0
    ensures p in Between(p, brk) && p != NULL
  {
  }

  lemma FullCell(c: Cell, t: Tree)
    requires t.Node? && CellFor(c, t) && |t.keys| == 14
    ensures c.InnerCell? && |c.keys| == 14 && c.keys == t.keys && c.first == t.first
  {
  }

  lemma CellAfterSplit(t: Tree, l: nat, newChild: Ptr, o: Outcome, keys: seq<int>)
    requires t.Node? && l <= |t.keys| < 14 && |t.kids| == |t.keys| + 1 && o.Splits? && |keys| == 14
    requires keys[..|t.keys| + 1] == Gap(t.keys, l, o.s)
    ensures CellFor(InnerCell(|t.keys| + 1, keys, newChild), NodeAfter(t, l, newChild, o))
  {
  }

  lemma CellAfterStay(c: Cell, t: Tree, l: nat, newChild: Ptr, o: Outcome)
    requires t.Node? && l <= |t.keys| && |t.kids| == |t.keys| + 1 && o.Stays? && CellFor(c, t)
    ensures CellFor(c, NodeAfter(t, l, newChild, o))
  {
  }

  /** Cells handed out before room was made do not matter. */
  lemma RoomInGrown(mem: Memory, grown: Memory, mem': Memory, first: Ptr, newGroup: Ptr, n: nat, i: nat)
    requires RoomMade(grown, mem', first, newGroup, n, i)
    requires forall j :: 0 <= j < n ==> Slot(first, j) in mem
    requires forall p :: p in mem ==> p in grown && grown[p] == mem[p]
    ensures RoomMade(mem, mem', first, newGroup, n, i)
  {
  }

  /** The root pointer leads to a new node with two kids. */
  ghost predicate NewRoot(mem: Memory, root: Ptr, s: int, newChild: Ptr, locs: seq<Ptr>, kids: seq<Tree>) {
    && root != NULL && root in mem && root !in Occupied(locs, kids)
    && mem[root].InnerCell? && mem[root].num == 1 && |mem[root].keys| == 14 && mem[root].keys[0] == s
       && mem[root].first == newChild
  }

  lemma NewRootIs(mem: Memory, root: Ptr, s: int, newChild: Ptr, locs: seq<Ptr>, kids: seq<Tree>, keys: seq<int>)
    requires root != NULL && root in mem && root !in Occupied(locs, kids)
    requires mem[root] == InnerCell(1, keys, newChild) && |keys| == 14 && keys[0] == s
    ensures NewRoot(mem, root, s, newChild, locs, kids)
  {
    hide Occupied;
  }

  /** The tree after entry l of a leaf has been removed. */
  lemma RemovedHere(was: Memory, mem: Memory, next: Links, prev: Links, root: Ptr, tree: Tree, h: nat, pre: seq<Ptr>,
                    node: Ptr, post: seq<Ptr>, e: Pair, l: nat, entries: seq<Pair>)
    requires TreeOk(was, next, prev, root, tree, h) && LeavesOf(root, tree) == pre + [node] + post
    requires node in was && LeafOk(was[node]) && l < was[node].num && was[node].entries[l] == e && |entries| == 6
    requires entries[..was[node].num - 1] == was[node].entries[..l] + was[node].entries[l + 1..was[node].num]
    requires Walked(was, pre, node, post, e, l) && mem == was[node := LeafCell(was[node].num - 1, entries)]
    requires LeafAt(root, tree, e.key) in pre + [node]
    ensures LeafFor(Reread(mem, root, tree), e.key) == DropPair(LeafFor(tree, e.key), e)
    ensures TreeOk(mem, next, prev, root, Reread(mem, root, tree), h)
    ensures e in Contents(tree) && Contents(Reread(mem, root, tree)) == DropPair(Contents(tree), e)
    ensures forall key :: key != e.key ==> (Reaches(Reread(mem, root, tree), key) <==> Reaches(tree, key))
  {
    hide *;
    var tree' := Reread(mem, root, tree);
    TreeOkParts(was, next, prev, root, tree, h);
    EntriesAtIs(was, node);
    MaxEntriesIs6(entries);
    ShrunkByOne(was, node, l, entries);
    RereadStands(was, mem, root, tree);
    RereadWithin(was, mem, root, tree, LOWEST, HIGHEST, h);
    OneHolds(mem, root, tree');
    TreeOkIs(mem, next, prev, root, tree', h);
    ContentsAreGathered(was, root, tree);
    ContentsAreGathered(mem, root, tree');
    WalkedNot(was, pre, node, post, e, l);
    LinkedDistinct(next, prev, pre + [node] + post);
    GatherShrunk(was, mem, pre, node, post, l);
    RoutedLeafDrops(was, mem, pre, node, post, e, l, root, tree);
    ContentsHere(was, pre, node, post, l, root, tree);
    InMiddle(Gather(was, pre), EntriesAt(was, node), l, Gather(was, post));
    forall key | key != e.key
      ensures Reaches(tree', key) <==> Reaches(tree, key)
    {
      ShrunkKeepsKeys(EntriesAt(was, node), l, key);
      RereadReaches(was, mem, root, tree, key);
    }
  }

  lemma MaxEntriesIs6(entries: seq<Pair>)
    ensures |entries| == 6 <==> |entries| == MAX_ENTRIES
  {
  }

  lemma WalkedNot(mem: Memory, pre: seq<Ptr>, node: Ptr, post: seq<Ptr>, e: Pair, l: nat)
    requires Walked(mem, pre, node, post, e, l)
    ensures l <= |EntriesAt(mem, node)| && e !in Gather(mem, pre) + EntriesAt(mem, node)[..l]
  {
  }

  lemma LinkedDistinct(next: Links, prev: Links, leaves: seq<Ptr>)
    requires Linked(next, prev, leaves)
    ensures Distinct(leaves)
  {
  }

  lemma InMiddle(a: seq<Pair>, es: seq<Pair>, l: nat, b: seq<Pair>)
    requires l < |es|
    ensures es[l] in (a + es[..l]) + (es[l..] + b)
  {
    assert es[l..][0] == es[l];
  }
}
