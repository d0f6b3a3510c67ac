/** When the optimistic lookup of the ordered adaptive radix tree is right. */
module OrdLookup {
  import opened ArtShape
  import opened OrdNode
  import opened OrdTree

  // ---------------------------------------------------------------- when the optimistic lookup is right

  /** The answer is the stored value, or none. */
  ghost predicate Answers(t: Tree, key: Key, r: Option<Value>) {
    && (r.Some? <==> HasKey(Entries(t), key))
    && (r.Some? ==> (key, r.value) in Entries(t))
  }

  /** No leaf is reached at the end of its key after a path that was skipped. */
  ghost predicate Sees(t: Tree, depth: nat, len: nat, skipped: bool) {
    match t
    case Leaf(_, _, _) => !(skipped && depth == len)
    case Inner(_, prefix, kids) =>
      forall b: Byte :: b in kids ==> Sees(kids[b], depth + |prefix| + 1, len, skipped || |prefix| >= 9)
  }

  lemma SeesKid(t: Tree, depth: nat, len: nat, skipped: bool, b: Byte)
    requires t.Inner? && b in t.kids && Sees(t, depth, len, skipped)
    ensures Sees(t.kids[b], depth + |t.prefix| + 1, len, skipped || |t.prefix| >= 9)
  {
  }

  lemma {:induction false} FoundAnswers(t: Tree, path: Key, key: Key, skipped: bool)
    requires Shaped(t, path) && Lengths(Entries(t), |key|) && Sees(t, |path|, |key|, skipped)
    requires skipped || path <= key
    ensures Answers(t, key, Found(t, key, |path|, skipped))
    decreases t
  {
    hide *;
    if t.Leaf? {
      LeafAnswers(t, path, key, skipped);
    } else {
      PathInside(t, path, |key|);
      KidDecides(t, path, key);
      FoundBelow(t, key, |path|, skipped);
      var d := |path| + |t.prefix|;
      if |t.prefix| < 9 && key[|path|..d] != t.prefix {
        LeavesPath(path, t.prefix, key);
        OffThePath(t, path, key);
        NoAnswer(t, key);
      } else if key[d] in t.kids {
        if !skipped && |t.prefix| < 9 { StaysOnPath(path, t.prefix, key); }
        KidLengths(t, key[d], |key|);
        KidShaped(t, path, key[d]);
        SeesKid(t, |path|, |key|, skipped, key[d]);
        var q := StepPath(path, t.prefix, key[d]);
        FoundAnswers(t.kids[key[d]], q, key, skipped || |t.prefix| >= 9);
        AnswersKept(t.kids[key[d]], t, key, Found(t, key, |path|, skipped));
      } else {
        NoAnswer(t, key);
      }
    }
  }

  lemma NoAnswer(t: Tree, key: Key)
    requires !HasKey(Entries(t), key)
    ensures Answers(t, key, None)
  {
  }

  lemma AnswersKept(s: Tree, t: Tree, key: Key, r: Option<Value>)
    requires Answers(s, key, r) && SameAnswer(s, t, key)
    ensures Answers(t, key, r)
  {
    AnswerKept(s, t, key);
  }

  lemma LeafAnswers(t: Tree, path: Key, key: Key, skipped: bool)
    requires t.Leaf? && Shaped(t, path) && Lengths(Entries(t), |key|) && Sees(t, |path|, |key|, skipped)
    requires skipped || path <= key
    ensures Answers(t, key, Found(t, key, |path|, skipped))
  {
    assert Entries(t) == {(t.key, t.value)};
    assert (t.key, t.value) in Entries(t);
    if skipped {
      assert t.key[0..] == t.key && key[0..] == key;
    } else {
      LeafDecides(t, path, key);
    }
    if t.key == key { assert (key, t.value) in Entries(t); }
  }

  lemma LeavesPath(path: Key, prefix: seq<Byte>, key: Key)
    requires |path| + |prefix| < |key| && key[|path|..|path| + |prefix|] != prefix
    ensures !(path + prefix <= key)
  {
    if path + prefix <= key {
      SliceOf(path, prefix, key);
    }
  }

  lemma StaysOnPath(path: Key, prefix: seq<Byte>, key: Key)
    requires path <= key && |path| + |prefix| < |key| && key[|path|..|path| + |prefix|] == prefix
    ensures path + prefix + [key[|path| + |prefix|]] <= key
  {
    SplitPath(path, prefix, key);
  }

  // ---------------------------------------------------------------- and when it is not

  /** Once a path has been skipped, all keys with the last bytes of k lead to a leaf that is not compared. */
  ghost predicate Unseen(t: Tree, depth: nat, k: Key) {
    depth <= |k| && forall key: Key :: |key| == |k| && key[depth..] == k[depth..] ==> Found(t, key, depth, true).Some?
  }

  lemma BlindKid(t: Tree, depth: nat, len: nat, skipped: bool) returns (b: Byte)
    requires t.Inner? && !Sees(t, depth, len, skipped)
    ensures b in t.kids && !Sees(t.kids[b], depth + |t.prefix| + 1, len, skipped || |t.prefix| >= 9)
  {
    b :| b in t.kids && !Sees(t.kids[b], depth + |t.prefix| + 1, len, skipped || |t.prefix| >= 9);
  }

  lemma {:induction false} BlindLeaf(t: Tree, path: Key, len: nat) returns (k: Key)
    requires Shaped(t, path) && Lengths(Entries(t), len) && !Sees(t, |path|, len, true)
    ensures |k| == len && path <= k && Unseen(t, |path|, k)
    decreases t
  {
    if t.Leaf? {
      assert (t.key, t.value) in Entries(t);
      k := t.key;
    } else {
      hide *;
      PathInside(t, path, len);
      var b := BlindKid(t, |path|, len, true);
      KidLengths(t, b, len);
      KidShaped(t, path, b);
      k := BlindLeaf(t.kids[b], StepPath(path, t.prefix, b), len);
      UnseenAbove(t, path, b, k);
    }
  }

  lemma UnseenAbove(t: Tree, path: Key, b: Byte, k: Key)
    requires t.Inner? && b in t.kids && path + t.prefix + [b] <= k && Unseen(t.kids[b], |path| + |t.prefix| + 1, k)
    ensures path <= k && Unseen(t, |path|, k)
  {
    assert path == (path + t.prefix + [b])[..|path|] == k[..|path|];
    forall key: Key | |key| == |k| && key[|path|..] == k[|path|..] ensures Found(t, key, |path|, true).Some? {
      SameTail(path, t.prefix, b, k, key);
      FoundBelow(t, key, |path|, true);
    }
  }

  lemma SameTail(path: Key, prefix: seq<Byte>, b: Byte, k: Key, key: Key)
    requires path + prefix + [b] <= k && |key| == |k| && key[|path|..] == k[|path|..]
    ensures var d := |path| + |prefix|;
      key[|path|..d] == prefix && key[d] == b && key[d + 1..] == k[d + 1..]
  {
    var d := |path| + |prefix|;
    assert (path + prefix + [b])[|path|..d] == prefix && (path + prefix + [b])[d] == b;
    assert k[|path|..][..|prefix|] == k[|path|..d] && key[|path|..][..|prefix|] == key[|path|..d];
    assert k[|path|..][|prefix|] == k[d] && key[|path|..][|prefix|] == key[d];
    assert k[|path|..][|prefix| + 1..] == k[d + 1..] && key[|path|..][|prefix| + 1..] == key[d + 1..];
    assert k[|path|..d] == (path + prefix + [b])[|path|..d];
  }

  /** A key that is not stored and that the optimistic lookup finds. */
  lemma {:induction false} BlindKey(t: Tree, path: Key, len: nat) returns (key: Key)
    requires Shaped(t, path) && Lengths(Entries(t), len) && !Sees(t, |path|, len, false)
    ensures |key| == len && path <= key
    ensures Found(t, key, |path|, false).Some? && !HasKey(Entries(t), key)
    decreases t
  {
    if t.Inner? {
      hide *;
      PathInside(t, path, len);
      var b := BlindKid(t, |path|, len, false);
      KidLengths(t, b, len);
      KidShaped(t, path, b);
      var q := StepPath(path, t.prefix, b);
      if |t.prefix| >= 9 {
        var k := BlindLeaf(t.kids[b], q, len);
        key := OtherKey(t, path, b, k);
      } else {
        key := BlindKey(t.kids[b], q, len);
        KeyAbove(t, path, b, key);
      }
    }
  }

  /** Another first byte on a skipped path. */
  lemma OtherKey(t: Tree, path: Key, b: Byte, k: Key) returns (key: Key)
    requires t.Inner? && b in t.kids && |t.prefix| >= 9 && Shaped(t, path)
    requires path + t.prefix + [b] <= k && Unseen(t.kids[b], |path| + |t.prefix| + 1, k)
    ensures |key| == |k| && path <= key && Found(t, key, |path|, false).Some? && !HasKey(Entries(t), key)
  {
    hide *;
    PathStarts(path, t.prefix, b, k);
    key := WithByte(k, |path|, if t.prefix[0] == 0 then 1 else 0);
    OtherStart(path, t.prefix, b, k, key);
    FoundAnyway(t, |path|, |path| + |t.prefix|, b, k, key);
    OffThePath(t, path, key);
  }

  lemma WithByte(k: Key, at: nat, x: Byte) returns (key: Key)
    requires at < |k|
    ensures |key| == |k| && key[..at] == k[..at] && key[at] == x && key[at + 1..] == k[at + 1..]
  {
    key := k[..at] + [x] + k[at + 1..];
  }

  lemma KeyAbove(t: Tree, path: Key, b: Byte, key: Key)
    requires t.Inner? && b in t.kids && |t.prefix| < 9 && Shaped(t, path) && path + t.prefix + [b] <= key
    requires Found(t.kids[b], key, |path| + |t.prefix| + 1, false).Some? && !HasKey(Entries(t.kids[b]), key)
    ensures path <= key && Found(t, key, |path|, false).Some? && !HasKey(Entries(t), key)
  {
    hide *;
    PathStarts(path, t.prefix, b, key);
    SameTail(path, t.prefix, b, key, key);
    FoundKid(t, key, |path|, false, b, |path| + |t.prefix|, false);
    KidDecides(t, path, key);
  }

  /** The bytes of a skipped path do not matter. */
  lemma FoundAnyway(t: Tree, depth: nat, d: nat, b: Byte, k: Key, key: Key)
    requires t.Inner? && b in t.kids && |t.prefix| >= 9 && d == depth + |t.prefix| < |key| == |k|
    requires Unseen(t.kids[b], d + 1, k) && key[d] == b && key[d + 1..] == k[d + 1..]
    ensures Found(t, key, depth, false).Some?
  {
    hide *;
    FoundKid(t, key, depth, false, b, d, true);
    FoundUnseen(t.kids[b], d + 1, k, key);
  }

  lemma FoundUnseen(t: Tree, depth: nat, k: Key, key: Key)
    requires Unseen(t, depth, k) && |key| == |k| && key[depth..] == k[depth..]
    ensures Found(t, key, depth, true).Some?
  {
  }

  lemma FoundKid(t: Tree, key: Key, depth: nat, skipped: bool, b: Byte, d: nat, skips: bool)
    requires t.Inner? && d == depth + |t.prefix| < |key| && key[d] == b && b in t.kids
    requires skips == (skipped || |t.prefix| >= 9)
    requires |t.prefix| >= 9 || key[depth..d] == t.prefix
    ensures Found(t, key, depth, skipped) == Found(t.kids[b], key, d + 1, skips)
  {
  }

  lemma PathStarts(path: Key, prefix: seq<Byte>, b: Byte, k: Key)
    requires path + prefix + [b] <= k
    ensures path <= k && |path| + |prefix| < |k|
  {
    assert path == (path + prefix + [b])[..|path|] == k[..|path|];
  }

  lemma OtherStart(path: Key, prefix: seq<Byte>, b: Byte, k: Key, key: Key)
    requires |prefix| > 0 && path + prefix + [b] <= k && |key| == |k| && |path| < |k|
    requires key[..|path|] == k[..|path|] && key[|path|] != prefix[0] && key[|path| + 1..] == k[|path| + 1..]
    ensures path <= key && !(path + prefix <= key)
    ensures var d := |path| + |prefix|; key[d] == b && key[d + 1..] == k[d + 1..]
  {
    var d := |path| + |prefix|;
    assert (path + prefix + [b])[d] == b && (path + prefix)[|path|] == prefix[0];
    assert path == (path + prefix + [b])[..|path|] == k[..|path|];
    assert key[|path| + 1..][|prefix| - 1] == key[d] && k[|path| + 1..][|prefix| - 1] == k[d];
    assert key[|path| + 1..][|prefix|..] == key[d + 1..] && k[|path| + 1..][|prefix|..] == k[d + 1..];
  }

  /** The optimistic lookup is right about all keys exactly if no leaf escapes comparison. */
  lemma LookupIsRight(t: Tree, len: nat)
    requires Shaped(t, []) && Lengths(Entries(t), len)
    ensures Sees(t, 0, len, false) <==> forall key: Key :: |key| == len ==> Answers(t, key, Found(t, key, 0, false))
  {
    if Sees(t, 0, len, false) {
      forall key: Key | |key| == len ensures Answers(t, key, Found(t, key, 0, false)) {
        FoundAnswers(t, [], key, false);
      }
    } else {
      var key := BlindKey(t, [], len);
      assert !Answers(t, key, Found(t, key, 0, false));
    }
  }

  /** Keys of at most nine bytes are always compared. */
  lemma {:induction false} ShortKeys(t: Tree, path: Key, len: nat)
    requires Shaped(t, path) && Lengths(Entries(t), len) && len <= 9
    ensures Sees(t, |path|, len, false)
    decreases t
  {
    if t.Inner? {
      PathInside(t, path, len);
      forall b: Byte | b in t.kids ensures Sees(t.kids[b], |path| + |t.prefix| + 1, len, false) {
        KidLengths(t, b, len);
        ShortKeys(t.kids[b], path + t.prefix + [b], len);
      }
    }
  }

  /** For keys of one length the optimistic lookup is right in every tree, or some tree misleads it. */
  lemma RightForShortKeys(len: nat)
    ensures len <= 9 <==> forall t: Tree, key: Key ::
      Shaped(t, []) && Lengths(Entries(t), len) && |key| == len ==> Answers(t, key, Found(t, key, 0, false))
  {
    if len <= 9 {
      forall t: Tree, key: Key | Shaped(t, []) && Lengths(Entries(t), len) && |key| == len
        ensures Answers(t, key, Found(t, key, 0, false))
      {
        ShortKeys(t, [], len);
        FoundAnswers(t, [], key, false);
      }
    } else {
      var k: Key := seq(len - 1, _ => 0);
      var t := Twins(k, 0, 0, 1, 1);
      TwinsShaped(k, 0, 0, 1, 1);
      TwinsSee(k, 0, 0, 1, 1);
      var key := BlindKey(t, [], len);
      assert !Answers(t, key, Found(t, key, 0, false));
    }
  }

  /** The tree of two keys that differ in their last byte only. */
  function Twins(k: Key, b: Byte, v: Value, b': Byte, v': Value): Tree {
    Inner(0, k, map[b := Leaf(0, k + [b], v), b' := Leaf(0, k + [b'], v')])
  }

  lemma TwinsShaped(k: Key, b: Byte, v: Value, b': Byte, v': Value)
    requires b != b'
    ensures var t := Twins(k, b, v, b', v');
      Shaped(t, []) && Entries(t) == {(k + [b], v), (k + [b'], v')} && Lengths(Entries(t), |k| + 1)
  {
    var t := Twins(k, b, v, b', v');
    var s, u := Leaf(0, k + [b], v), Leaf(0, k + [b'], v');
    TwoLeaves(t, k, b, s, b', u);
    hide *;
    LeafEntries(s);
    LeafEntries(u);
    TwoLengths((k + [b], v), (k + [b'], v'), |k| + 1);
  }

  lemma TwoLeaves(t: Tree, k: Key, b: Byte, s: Tree, b': Byte, u: Tree)
    requires b != b' && t == Inner(0, k, map[b := s, b' := u])
    requires s.Leaf? && u.Leaf? && s.key == k + [b] && u.key == k + [b']
    ensures Shaped(t, []) && Entries(t) == Entries(s) + Entries(u)
  {
    hide *;
    NoPath(k, b);
    NoPath(k, b');
    LeafShaped(s, [] + k + [b], k + [b]);
    LeafShaped(u, [] + k + [b'], k + [b']);
    MakeFork(t, [], b, s, b', u);
  }

  lemma TwinsSee(k: Key, b: Byte, v: Value, b': Byte, v': Value)
    requires b != b'
    ensures Sees(Twins(k, b, v, b', v'), 0, |k| + 1, false) <==> |k| < 9
  {
    var t := Twins(k, b, v, b', v');
    LeafSees(t.kids[b], |k| + 1, |k| >= 9);
    LeafSees(t.kids[b'], |k| + 1, |k| >= 9);
  }

  lemma NoPath(k: Key, b: Byte)
    ensures [] + k + [b] == k + [b]
  {
  }

  lemma LeafSees(t: Tree, len: nat, skipped: bool)
    requires t.Leaf?
    ensures Sees(t, len, len, skipped) <==> !skipped
  {
  }

  lemma TwoLengths(e: Entry, f: Entry, len: nat)
    requires |e.0| == len == |f.0|
    ensures Lengths({e, f}, len)
  {
  }
}
