/** Runs of insertions and deletions on a CSB+-tree, and when its search answers as a map would. */
module CsbRuns {
  import opened SortedPairs
  import opened CsbShape
  import opened CsbLevels
  import opened CsbTree

  datatype Op = Put(e: Pair) | Remove(e: Pair)

  /** The stored entries after some operations. */
  ghost function After(a: seq<Pair>, ops: seq<Op>): seq<Pair>
    decreases |ops|
  {
    if ops == [] then a else Step(After(a, ops[..|ops| - 1]), ops[|ops| - 1])
  }

  ghost function Step(a: seq<Pair>, op: Op): seq<Pair> {
    match op case Put(e) => PutPair(a, e) case Remove(e) => DropPair(a, e)
  }

  ghost predicate InRange(op: Op) {
    op.Put? ==> LOWEST <= op.e.key <= HIGHEST
  }

  /** No operation removes an entry while another one has its key. */
  ghost predicate RemovesLast(a: seq<Pair>, ops: seq<Op>) {
    forall i :: 0 <= i < |ops| && ops[i].Remove? && ops[i].e in After(a, ops[..i]) ==>
      !HasKey(DropPair(After(a, ops[..i]), ops[i].e), ops[i].e.key)
  }

  /** After any run the index is well formed and holds exactly what the run says.  If every key was
      findable, and no entry was removed while another one had its key, every key still is. */
  method Replay(index: Index, ops: seq<Op>)
    requires index.Valid() && forall i :: 0 <= i < |ops| ==> InRange(ops[i])
    modifies index
    ensures index.Valid() && index.Entries() == After(old(index.Entries()), ops)
    ensures AllReachable(old(index.tree)) && RemovesLast(old(index.Entries()), ops) ==> AllReachable(index.tree)
  {
    hide *;
    ghost var start := index.Entries();
    AfterNone(start, ops);
    var i := 0;
    while i < |ops|
      invariant i <= |ops| && index.Valid() && index.Entries() == After(start, ops[..i])
      invariant AllReachable(old(index.tree)) && RemovesLast(start, ops) ==> AllReachable(index.tree)
    {
      AfterMore(start, ops, i);
      RangeAt(ops, i);
      ghost var was := index.tree;
      index.EntriesIs();
      match ops[i] {
        case Put(e) =>
          index.Insert(e);
          index.EntriesIs();
          PutKeepsReach(was, index.tree, e);
        case Remove(e) =>
          index.ContentsSortedNow();
          var deleted := index.Delete(e);
          index.EntriesIs();
          RemoveKeepsReach(was, index.tree, e, deleted);
          RemovesLastAt(start, ops, i);
      }
      i := i + 1;
    }
    assert ops[..|ops|] == ops;
  }

  /** Bulk load, then any operations, then one search: the answer is the leftmost entry's, as long as
      no entry was removed while another one had its key; with distinct keys it is a map lookup. */
  method SearchAfterRun(a: seq<Pair>, iUpper: nat, lUpper: nat, ops: seq<Op>, key: int) returns (tid: int)
    requires Sorted(a) && KeysBetween(a, LOWEST, HIGHEST)
    requires 2 <= iUpper <= 13 && 1 <= lUpper <= 6 && |a| > lUpper
    requires forall i :: 0 <= i < |ops| ==> InRange(ops[i])
    ensures RemovesLast(a, ops) ==> tid == Find(After(a, ops), key)
    ensures forall m :: HoldsMap(a, m) && PutsNew(m, ops) ==>
      tid == if key in MapAfter(m, ops) then MapAfter(m, ops)[key] else 0
  {
    hide *;
    var index := new Index();
    index.BulkLoad(a, iUpper, lUpper);
    Replay(index, ops);
    index.EntriesIs();
    tid := index.Search(key);
    if AllReachable(index.tree) && !Reaches(index.tree, key) { ReachableOrAbsent(index.tree, key); }
    forall m | HoldsMap(a, m) && PutsNew(m, ops)
      ensures tid == if key in MapAfter(m, ops) then MapAfter(m, ops)[key] else 0
    {
      RunIsAMap(a, m, ops);
    }
  }

  lemma ReachableOrAbsent(t: Tree, key: int)
    requires AllReachable(t) && !Reaches(t, key)
    ensures Find(Contents(t), key) == 0
  {
    FindAbsent(Contents(t), key);
  }

  lemma AfterNone(a: seq<Pair>, ops: seq<Op>)
    ensures After(a, ops[..0]) == a
  {
  }

  lemma AfterMore(a: seq<Pair>, ops: seq<Op>, i: nat)
    requires i < |ops|
    ensures After(a, ops[..i + 1]) == if ops[i].Put? then PutPair(After(a, ops[..i]), ops[i].e)
      else DropPair(After(a, ops[..i]), ops[i].e)
  {
    assert ops[..i + 1][..i] == ops[..i];
  }

  lemma RangeAt(ops: seq<Op>, i: nat)
    requires i < |ops| && forall i :: 0 <= i < |ops| ==> InRange(ops[i])
    ensures ops[i].Put? ==> LOWEST <= ops[i].e.key <= HIGHEST
  {
  }

  lemma RemovesLastAt(a: seq<Pair>, ops: seq<Op>, i: nat)
    requires i < |ops| && ops[i].Remove?
    ensures RemovesLast(a, ops) && ops[i].e in After(a, ops[..i])
      ==> !HasKey(DropPair(After(a, ops[..i]), ops[i].e), ops[i].e.key)
  {
  }

  /** An insertion keeps every findable key findable, duplicates or not. */
  lemma PutKeepsReach(t: Tree, t': Tree, e: Pair)
    requires Contents(t') == PutPair(Contents(t), e)
    requires forall key :: Reaches(t', key) <==> Reaches(t, key) || key == e.key
    ensures AllReachable(t) ==> AllReachable(t')
  {
    hide PutPair, Contents, Reaches;
    forall key | HasKey(Contents(t'), key) && AllReachable(t)
      ensures Reaches(t', key)
    {
      PutPairKeys(Contents(t), e, key);
    }
  }

  /** After a deletion every key is findable if and only if the leaf that the deleted entry's key is
      routed to has another entry with that key, or no leaf has: the caller can tell beforehand. */
  lemma RemoveKeepsReach(t: Tree, t': Tree, e: Pair, deleted: bool)
    requires Sorted(Contents(t)) && Contents(t') == DropPair(Contents(t), e)
    requires forall key :: key != e.key ==> (Reaches(t', key) <==> Reaches(t, key))
    requires !deleted ==> t' == t
    requires LeafFor(t', e.key) == DropPair(LeafFor(t, e.key), e)
    requires deleted <==> e in Contents(t)
    ensures AllReachable(t) ==>
      (AllReachable(t') <==> HasKey(DropPair(LeafFor(t, e.key), e), e.key) || !HasKey(DropPair(Contents(t), e), e.key))
    ensures AllReachable(t) && (deleted ==> !HasKey(DropPair(Contents(t), e), e.key)) ==> AllReachable(t')
  {
    hide DropPair, Contents, LeafFor, Sorted;
    if AllReachable(t) {
      forall key | HasKey(Contents(t'), key) && key != e.key
        ensures Reaches(t', key)
      {
        DropPairKeys(Contents(t), e, key);
      }
    }
  }

  // ---------------------------------------------------------------- distinct keys: a finite map

  /** The map built by the operations; removing an entry that is not there changes nothing. */
  ghost function MapAfter(m: map<int, int>, ops: seq<Op>): map<int, int>
    decreases |ops|
  {
    if ops == [] then m else MapStep(MapAfter(m, ops[..|ops| - 1]), ops[|ops| - 1])
  }

  ghost function MapStep(m: map<int, int>, op: Op): map<int, int> {
    match op
    case Put(e) => m[e.key := e.tid]
    case Remove(e) => if e.key in m && m[e.key] == e.tid then m - {e.key} else m
  }

  /** The sequence holds exactly the bindings of the map, each key once. */
  ghost predicate HoldsMap(a: seq<Pair>, m: map<int, int>) {
    Sorted(a) && DistinctKeys(a) && BoundIn(a, m) && StoredIn(m, a)
  }

  ghost predicate DistinctKeys(a: seq<Pair>) {
    forall i, j :: 0 <= i < j < |a| ==> a[i].key != a[j].key
  }

  ghost predicate BoundIn(a: seq<Pair>, m: map<int, int>) {
    forall i :: 0 <= i < |a| ==> a[i].key in m && m[a[i].key] == a[i].tid
  }

  ghost predicate StoredIn(m: map<int, int>, a: seq<Pair>) {
    forall key :: key in m ==> HasKey(a, key)
  }

  /** Insertions put absent keys only. */
  ghost predicate PutsNew(m: map<int, int>, ops: seq<Op>) {
    forall i :: 0 <= i < |ops| && ops[i].Put? ==> ops[i].e.key !in MapAfter(m, ops[..i])
  }

  /** A run that inserts absent keys only: the entries are those of a finite map, and looking a key
      up in them is looking it up in the map. */
  lemma {:induction false} RunIsAMap(a: seq<Pair>, m: map<int, int>, ops: seq<Op>)
    requires HoldsMap(a, m) && PutsNew(m, ops)
    ensures HoldsMap(After(a, ops), MapAfter(m, ops)) && RemovesLast(a, ops)
    ensures forall key :: Find(After(a, ops), key) == if key in MapAfter(m, ops) then MapAfter(m, ops)[key] else 0
    decreases |ops|
  {
    hide Find, HoldsMap;
    if ops == [] {
    } else {
      var n := |ops| - 1;
      PutsNewBefore(m, ops);
      RunIsAMap(a, m, ops[..n]);
      StepIsMapStep(After(a, ops[..n]), MapAfter(m, ops[..n]), ops[n]);
      RemovesLastMore(a, ops);
    }
    forall key
      ensures Find(After(a, ops), key) == if key in MapAfter(m, ops) then MapAfter(m, ops)[key] else 0
    {
      FindInMap(After(a, ops), MapAfter(m, ops), key);
    }
  }

  lemma PutsNewBefore(m: map<int, int>, ops: seq<Op>)
    requires ops != [] && PutsNew(m, ops)
    ensures PutsNew(m, ops[..|ops| - 1])
    ensures var op := ops[|ops| - 1]; op.Put? ==> op.e.key !in MapAfter(m, ops[..|ops| - 1])
  {
    hide MapAfter;
    var before := ops[..|ops| - 1];
    forall i | 0 <= i < |before| ensures before[..i] == ops[..i] && before[i] == ops[i] {}
  }

  lemma RemovesLastMore(a: seq<Pair>, ops: seq<Op>)
    requires ops != [] && RemovesLast(a, ops[..|ops| - 1])
    requires var op, now := ops[|ops| - 1], After(a, ops[..|ops| - 1]);
      op.Remove? && op.e in now ==> !HasKey(DropPair(now, op.e), op.e.key)
    ensures RemovesLast(a, ops)
  {
    hide After, DropPair, HasKey;
    var before := ops[..|ops| - 1];
    forall i | 0 <= i < |before| ensures before[..i] == ops[..i] && before[i] == ops[i] {}
  }

  lemma FindInMap(a: seq<Pair>, m: map<int, int>, key: int)
    requires HoldsMap(a, m)
    ensures Find(a, key) == if key in m then m[key] else 0
  {
    hide LowerBound;
    if key in m {
      assert HasKey(a, key);
      var i :| 0 <= i < |a| && a[i].key == key;
      LowerBoundIs(a, key, i);
    }
  }

  lemma StepIsMapStep(a: seq<Pair>, m: map<int, int>, op: Op)
    requires HoldsMap(a, m) && (op.Put? ==> op.e.key !in m)
    ensures HoldsMap(Step(a, op), MapStep(m, op))
    ensures op.Remove? && op.e in a ==> !HasKey(DropPair(a, op.e), op.e.key)
  {
    match op {
      case Put(e) => PutInMap(a, m, e);
      case Remove(e) =>
        if e in a {
          var i :| 0 <= i < |a| && a[i] == e;
          DropFromMap(a, m, i);
        } else {
          DropPairAbsent(a, e);
          NotBound(a, m, e);
        }
    }
  }

  lemma NotBound(a: seq<Pair>, m: map<int, int>, e: Pair)
    requires HoldsMap(a, m) && e !in a
    ensures !(e.key in m && m[e.key] == e.tid)
  {
    if e.key in m {
      assert HasKey(a, e.key);
      var i :| 0 <= i < |a| && a[i].key == e.key;
    }
  }

  lemma PutInMap(a: seq<Pair>, m: map<int, int>, e: Pair)
    requires HoldsMap(a, m) && e.key !in m
    ensures HoldsMap(PutPair(a, e), m[e.key := e.tid])
  {
    PutPairSorted(a, e);
    PutDistinct(a, m, e);
    hide PutPair;
    forall key | key in m[e.key := e.tid] ensures HasKey(PutPair(a, e), key) {
      PutPairKeys(a, e, key);
    }
  }

  lemma PutDistinct(a: seq<Pair>, m: map<int, int>, e: Pair)
    requires DistinctKeys(a) && BoundIn(a, m) && e.key !in m
    ensures DistinctKeys(PutPair(a, e)) && BoundIn(PutPair(a, e), m[e.key := e.tid])
  {
    hide LowerBound;
    var l := LowerBound(a, e.key);
    var p := PutPair(a, e);
    assert forall i :: 0 <= i < |p| ==> p[i] == if i < l then a[i] else if i == l then e else a[i - 1];
  }

  lemma DropFromMap(a: seq<Pair>, m: map<int, int>, i: nat)
    requires HoldsMap(a, m) && i < |a|
    ensures HoldsMap(DropPair(a, a[i]), m - {a[i].key}) && !HasKey(DropPair(a, a[i]), a[i].key)
  {
    var e := a[i];
    assert a == a[..i] + [e] + a[i + 1..];
    forall j | 0 <= j < i ensures a[j] != e { assert a[j].key != a[i].key; }
    DropPairFound(a[..i], e, a[i + 1..]);
    var d := a[..i] + a[i + 1..];
    WithoutOne(a, m, i);
  }

  lemma WithoutOne(a: seq<Pair>, m: map<int, int>, i: nat)
    requires HoldsMap(a, m) && i < |a|
    ensures var d := a[..i] + a[i + 1..]; HoldsMap(d, m - {a[i].key}) && !HasKey(d, a[i].key)
  {
    var d := a[..i] + a[i + 1..];
    WithoutAt(a, i);
    assert Sorted(d);
    assert DistinctKeys(d);
    assert BoundIn(d, m - {a[i].key});
    forall key | key in m - {a[i].key} ensures HasKey(d, key) {
      StillThere(a, m, i, key);
    }
  }

  lemma WithoutAt(a: seq<Pair>, i: nat)
    requires i < |a|
    ensures var d := a[..i] + a[i + 1..];
      && |d| == |a| - 1
      && (forall j :: 0 <= j < i ==> d[j] == a[j]) && (forall j :: i <= j < |d| ==> d[j] == a[j + 1])
  {
  }

  lemma StillThere(a: seq<Pair>, m: map<int, int>, i: nat, key: int)
    requires StoredIn(m, a) && i < |a| && key in m && key != a[i].key
    ensures HasKey(a[..i] + a[i + 1..], key)
  {
    WithoutAt(a, i);
    var d := a[..i] + a[i + 1..];
    assert HasKey(a, key);
    var j :| 0 <= j < |a| && a[j].key == key;
    if j < i { assert d[j].key == key; } else { assert d[j - 1] == a[j]; }
  }

  // ---------------------------------------------------------------- duplicates and deletion

  /** A deletion can hide a duplicate: with more entries of one key than a leaf holds, once all but the last of
      them are deleted, the search for the key finds nothing, although that last entry is stored. */
  method HiddenDuplicate(a: seq<Pair>, key: int, iUpper: nat, lUpper: nat) returns (index: Index, tid: int)
    requires |a| > MAX_ENTRIES && LOWEST <= key <= HIGHEST && forall i :: 0 <= i < |a| ==> a[i].key == key
    requires forall i, j :: 0 <= i < j < |a| ==> a[i].tid != a[j].tid
    requires 2 <= iUpper <= 13 && 1 <= lUpper <= 6
    ensures fresh(index) && index.Valid() && index.Entries() == [a[|a| - 1]]
    ensures tid == 0 && Find(index.Entries(), key) == a[|a| - 1].tid
  {
    OneKeySorted(a, key);
    assert MAX_ENTRIES == 6;
    hide *;
    index := new Index();
    index.BulkLoad(a, iUpper, lUpper);
    index.EntriesIs();
    ghost var n := RoutedFirst(index, key);
    RestOf(a, 0, n);
    var i := 0;
    while i < |a| - 1
      invariant i <= |a| - 1 && fresh(index) && index.Valid()
      invariant index.Entries() == a[i..] && LeafFor(index.tree, key) == (if i < n then a[i..n] else [])
    {
      RestOf(a, i, n);
      var _ := index.Delete(a[i]);
      i := i + 1;
    }
    LastLeft(a, index.tree, key);
    tid := index.Search(key);
  }

  lemma OneKeySorted(a: seq<Pair>, key: int)
    requires LOWEST <= key <= HIGHEST && forall i :: 0 <= i < |a| ==> a[i].key == key
    ensures Sorted(a) && KeysBetween(a, LOWEST, HIGHEST)
  {
  }

  /** If all entries have the key, the leaf that it is routed to holds the first of them, and not all. */
  lemma RoutedFirst(index: Index, key: int) returns (n: nat)
    requires index.Valid() && |index.Entries()| > MAX_ENTRIES
    requires forall i :: 0 <= i < |index.Entries()| ==> index.Entries()[i].key == key
    ensures n < |index.Entries()| && LeafFor(index.tree, key) == index.Entries()[..n]
  {
    var a := index.Entries();
    index.EntriesIs();
    index.ValidFacts();
    hide Within, LeafFor, Contents;
    TreeOkParts(index.mem, index.next, index.prev, index.root, index.tree, index.height);
    var before, after := LeafCut(index.tree, LOWEST, HIGHEST, index.height, key);
    LeafSize(index.tree, LOWEST, HIGHEST, index.height, key);
    var es := LeafFor(index.tree, key);
    FirstOf(before, es + after);
    assert before + (es + after) == a;
    n := |es|;
    assert a == es + after;
  }

  lemma FirstOf(before: seq<Pair>, rest: seq<Pair>)
    ensures before != [] ==> (before + rest)[0] == before[0]
  {
  }

  lemma {:induction false} LeafSize(t: Tree, lo: int, hi: int, h: nat, key: int)
    requires Within(t, lo, hi, h)
    ensures |LeafFor(t, key)| <= MAX_ENTRIES
    decreases t
  {
    if t.Node? {
      RouteCut(t.keys, t.kids, lo, hi, h - 1, key);
      var l := KeyIndex(t.keys, key);
      LeafSize(t.kids[l], LoOf(t.keys, lo, l), HiOf(t.keys, hi, l), h - 1, key);
    }
  }

  /** Removing the first of what is left. */
  lemma RestOf(a: seq<Pair>, i: nat, n: nat)
    requires i < |a| && n < |a|
    ensures a[0..] == a && a[0..n] == a[..n] && (n == 0 ==> a[..n] == [])
    ensures DropPair(a[i..], a[i]) == a[i + 1..]
    ensures DropPair(if i < n then a[i..n] else [], a[i]) == if i + 1 < n then a[i + 1..n] else []
  {
    hide DropPair;
    assert a[i..] == [a[i]] + a[i + 1..];
    DropPairFirst(a[i], a[i + 1..]);
    if i < n {
      assert a[i..n] == [a[i]] + a[i + 1..n];
      DropPairFirst(a[i], a[i + 1..n]);
    } else {
      DropPairAbsent([], a[i]);
    }
  }

  lemma LastLeft(a: seq<Pair>, t: Tree, key: int)
    requires a != [] && a[|a| - 1].key == key && LeafFor(t, key) == []
    ensures a[|a| - 1..] == [a[|a| - 1]] && Find([a[|a| - 1]], key) == a[|a| - 1].tid && !Reaches(t, key)
  {
    assert !HasKey([], key);
    var e := a[|a| - 1];
    assert [e][0] == e;
  }
}
