/** Index entries, and what inserting, finding and removing entries means on a sorted sequence.
    Keys may occur more than once. */
module SortedPairs {

  datatype Pair = Pair(key: int, tid: int)

  ghost predicate Sorted(a: seq<Pair>) {
    forall i, j :: 0 <= i <= j < |a| ==> a[i].key <= a[j].key
  }

  ghost predicate KeysBetween(a: seq<Pair>, lo: int, hi: int) {
    forall i :: 0 <= i < |a| ==> lo <= a[i].key <= hi
  }

  ghost predicate AllBelow(a: seq<Pair>, key: int) {
    forall i :: 0 <= i < |a| ==> a[i].key < key
  }

  ghost predicate AllFrom(a: seq<Pair>, key: int) {
    forall i :: 0 <= i < |a| ==> key <= a[i].key
  }

  ghost predicate HasKey(a: seq<Pair>, key: int) {
    exists i :: 0 <= i < |a| && a[i].key == key
  }

  /** Number of leading entries with a smaller key: where the key is, or belongs. */
  function LowerBound(a: seq<Pair>, key: int): (l: nat)
    ensures l <= |a|
    ensures forall i :: 0 <= i < l ==> a[i].key < key
    ensures l < |a| ==> key <= a[l].key
    decreases |a|
  {
    if a == [] || key <= a[0].key then 0 else 1 + LowerBound(a[1..], key)
  }

  lemma LowerBoundIs(a: seq<Pair>, key: int, l: nat)
    requires l <= |a|
    requires forall i :: 0 <= i < l ==> a[i].key < key
    requires l < |a| ==> key <= a[l].key
    ensures LowerBound(a, key) == l
  {
    hide LowerBound;
  }

  /** A new entry goes in front of the entries with its key. */
  function PutPair(a: seq<Pair>, e: Pair): seq<Pair> {
    var l := LowerBound(a, e.key);
    a[..l] + [e] + a[l..]
  }

  /** Inserting between smaller and not smaller entries. */
  lemma PutPairInside(before: seq<Pair>, a: seq<Pair>, after: seq<Pair>, e: Pair)
    requires AllBelow(before, e.key) && AllFrom(after, e.key)
    ensures PutPair(before + a + after, e) == before + PutPair(a, e) + after
  {
    hide *;
    var l := LowerBound(a, e.key);
    LowerBoundInside(before, a, after, e.key);
    CutInside(before, a, after, l);
    PutPairIs(before + a + after, e);
    PutPairIs(a, e);
    Regroup(before, a[..l], [e], a[l..], after);
  }

  lemma PutPairIs(a: seq<Pair>, e: Pair)
    ensures PutPair(a, e) == a[..LowerBound(a, e.key)] + [e] + a[LowerBound(a, e.key)..]
  {
  }

  lemma Regroup(before: seq<Pair>, x: seq<Pair>, m: seq<Pair>, y: seq<Pair>, after: seq<Pair>)
    ensures (before + x) + m + (y + after) == before + (x + m + y) + after
  {
  }

  lemma LowerBoundInside(before: seq<Pair>, a: seq<Pair>, after: seq<Pair>, key: int)
    requires AllBelow(before, key) && AllFrom(after, key)
    ensures LowerBound(before + a + after, key) == |before| + LowerBound(a, key)
  {
    hide LowerBound;
    var l := LowerBound(a, key);
    var all := before + a + after;
    forall i | 0 <= i < |before| + l
      ensures all[i].key < key
    {
      if i >= |before| { assert all[i] == a[i - |before|]; }
    }
    LowerBoundIs(all, key, |before| + l);
  }

  lemma CutInside(before: seq<Pair>, a: seq<Pair>, after: seq<Pair>, l: nat)
    requires l <= |a|
    ensures (before + a + after)[..|before| + l] == before + a[..l]
    ensures (before + a + after)[|before| + l..] == a[l..] + after
  {
  }

  lemma PutPairSorted(a: seq<Pair>, e: Pair)
    requires Sorted(a)
    ensures Sorted(PutPair(a, e))
  {
    hide LowerBound;
    var l := LowerBound(a, e.key);
    assert forall i :: l <= i < |a| ==> e.key <= a[i].key;
  }

  /** The entries after inserting e are the old ones and e. */
  lemma PutPairKeys(a: seq<Pair>, e: Pair, key: int)
    ensures HasKey(PutPair(a, e), key) <==> HasKey(a, key) || key == e.key
  {
    hide LowerBound;
    var l := LowerBound(a, e.key);
    var p := PutPair(a, e);
    assert p[l] == e;
    assert forall i :: 0 <= i < l ==> p[i] == a[i];
    assert forall i :: l <= i < |a| ==> a[i] == p[i + 1];
  }

  lemma HasKeyConcat(a: seq<Pair>, b: seq<Pair>, key: int)
    ensures HasKey(a + b, key) <==> HasKey(a, key) || HasKey(b, key)
  {
    var all := a + b;
    assert forall i :: 0 <= i < |a| ==> all[i] == a[i];
    assert forall i :: 0 <= i < |b| ==> b[i] == all[|a| + i];
  }

  lemma SortedConcat(a: seq<Pair>, b: seq<Pair>, key: int)
    requires Sorted(a) && Sorted(b)
    requires forall i :: 0 <= i < |a| ==> a[i].key <= key
    requires forall i :: 0 <= i < |b| ==> key <= b[i].key
    ensures Sorted(a + b)
  {
  }

  /** What a lookup answers: the tid of the leftmost entry with the key, else 0. */
  function Find(a: seq<Pair>, key: int): int {
    var l := LowerBound(a, key);
    if l < |a| && a[l].key == key then a[l].tid else 0
  }

  /** The entries without the first occurrence of e, if there is one. */
  function DropPair(a: seq<Pair>, e: Pair): seq<Pair>
    decreases |a|
  {
    if a == [] then [] else if a[0] == e then a[1..] else [a[0]] + DropPair(a[1..], e)
  }

  /** The first occurrence lies behind `before`. */
  lemma {:induction false} DropPairInside(before: seq<Pair>, a: seq<Pair>, e: Pair)
    requires e !in before
    ensures DropPair(before + a, e) == before + DropPair(a, e)
    decreases |before|
  {
    var all := before + a;
    if before == [] {
      assert all == a;
    } else {
      assert all[0] == before[0] && all[1..] == before[1..] + a;
      DropPairInside(before[1..], a, e);
    }
  }

  lemma DropPairFound(before: seq<Pair>, e: Pair, after: seq<Pair>)
    requires e !in before
    ensures DropPair(before + [e] + after, e) == before + after
  {
    hide DropPair;
    assert before + [e] + after == before + ([e] + after);
    DropPairInside(before, [e] + after, e);
    DropPairFirst(e, after);
  }

  lemma DropPairFirst(e: Pair, after: seq<Pair>)
    ensures DropPair([e] + after, e) == after
  {
    assert ([e] + after)[0] == e && ([e] + after)[1..] == after;
  }

  /** Past an entry with a larger key there is no entry with this one. */
  lemma AbsentFrom(before: seq<Pair>, rest: seq<Pair>, e: Pair)
    requires Sorted(before + rest) && e !in before
    requires rest != [] ==> rest[0].key > e.key
    ensures e !in before + rest
  {
    var all := before + rest;
    forall i | |before| <= i < |all| ensures all[i].key > e.key {
      assert all[|before|] == rest[0];
    }
  }

  lemma {:induction false} DropPairAbsent(a: seq<Pair>, e: Pair)
    requires e !in a
    ensures DropPair(a, e) == a
    decreases |a|
  {
    if a != [] { DropPairAbsent(a[1..], e); }
  }

  // ---------------------------------------------------------------- lookups as on a map

  lemma TailSorted(a: seq<Pair>)
    requires Sorted(a) && a != []
    ensures Sorted(a[1..])
  {
  }

  lemma {:induction false} DropPairSorted(a: seq<Pair>, e: Pair)
    requires Sorted(a)
    ensures Sorted(DropPair(a, e)) && forall x :: x in DropPair(a, e) ==> x in a
    decreases |a|
  {
    if a != [] {
      TailSorted(a);
      DropPairSorted(a[1..], e);
      if a[0] != e {
        var d := DropPair(a[1..], e);
        forall i | 0 <= i < |d| ensures a[0].key <= d[i].key {
          assert d[i] in a[1..];
          var j :| 0 <= j < |a[1..]| && a[1..][j] == d[i];
          assert a[j + 1] == d[i];
        }
      }
    }
  }

  lemma FindAbsent(a: seq<Pair>, key: int)
    requires !HasKey(a, key)
    ensures Find(a, key) == 0
  {
    hide LowerBound;
  }

  lemma DropPairKeys(a: seq<Pair>, e: Pair, key: int)
    requires HasKey(DropPair(a, e), key) && Sorted(a)
    ensures HasKey(a, key)
  {
    var d := DropPair(a, e);
    DropPairSorted(a, e);
    var i :| 0 <= i < |d| && d[i].key == key;
    assert d[i] in a;
  }

  // ---------------------------------------------------------------- each key at most once

  ghost predicate Strict(a: seq<Pair>) {
    forall i, j :: 0 <= i < j < |a| ==> a[i].key < a[j].key
  }

  lemma PutStrict(a: seq<Pair>, e: Pair)
    requires Strict(a) && !HasKey(a, e.key)
    ensures Strict(PutPair(a, e))
  {
    hide LowerBound;
    var l := LowerBound(a, e.key);
    var p := PutPair(a, e);
    assert forall i :: 0 <= i < |a| ==> a[i].key != e.key;
    forall i, j | 0 <= i < j < |p| ensures p[i].key < p[j].key {
      assert p[i] == if i < l then a[i] else if i == l then e else a[i - 1];
      assert p[j] == if j < l then a[j] else if j == l then e else a[j - 1];
    }
  }

  lemma WithoutStrict(a: seq<Pair>, l: int)
    requires Strict(a) && 0 <= l < |a|
    ensures Strict(a[..l] + a[l + 1..])
  {
    var d := a[..l] + a[l + 1..];
    forall i, j | 0 <= i < j < |d| ensures d[i].key < d[j].key {
      assert d[i] == if i < l then a[i] else a[i + 1];
      assert d[j] == if j < l then a[j] else a[j + 1];
    }
  }

  lemma LowerBoundKeys(a: seq<Pair>, key: int)
    ensures LowerBound(a, key) <= |a| && (LowerBound(a, key) < |a| ==> key <= a[LowerBound(a, key)].key)
    ensures forall i :: 0 <= i < LowerBound(a, key) ==> a[i].key < key
  {
  }

  lemma LowerBoundPositive(live: seq<Pair>, key: int)
    requires live != [] && live[0].key < key
    ensures LowerBound(live, key) > 0
  {
  }

  lemma PutFirst(live: seq<Pair>, e: Pair)
    ensures live != [] && live[0].key < e.key ==> PutPair(live, e) != [] && PutPair(live, e)[0] == live[0]
  {
    hide LowerBound;
    if live != [] && live[0].key < e.key { LowerBoundPositive(live, e.key); }
  }

  lemma PutNotEmpty(a: seq<Pair>, e: Pair)
    ensures PutPair(a, e) != []
  {
  }

  lemma NotFirst(live: seq<Pair>, key: int)
    requires live != [] && !HasKey(live, key)
    ensures live[0].key != key
  {
  }

  lemma RebindBetween(live: seq<Pair>, lo: int, hi: int, l: nat, value: int)
    requires KeysBetween(live, lo, hi) && l < |live|
    ensures KeysBetween(live[l := Pair(live[l].key, value)], lo, hi)
  {
  }
}
