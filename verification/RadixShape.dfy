/** The write-atomic radix tree: nodes of eight entries, addressed by level and key prefix. */
module RadixShape {

  type Ptr = int
  const NULL: Ptr := 0

  /** An inner entry is a child pointer, a leaf entry a value; 0 means none. */
  datatype Node = Node(entries: seq<int>, parent: Ptr, sibling: Ptr, index: nat)

  type Nodes = map<Ptr, Node>

  /** Leaves are on level 1.  A node on level l covers the keys with one prefix, key / 8^l. */
  datatype Pos = Pos(level: nat, prefix: nat)

  // ---------------------------------------------------------------- prefixes

  function Pow8(n: nat): (r: nat)
    ensures r > 0
  {
    if n == 0 then 1 else 8 * Pow8(n - 1)
  }

  /** Twenty-one levels of three bits: the keys below 2^63. */
  lemma KeysOf63Bits()
    ensures Pow8(0) == 1 && Pow8(1) == 8 && Pow8(21) == 0x8000_0000_0000_0000
  {
    assert Pow8(7) == 0x20_0000;
    assert Pow8(14) == 8 * (8 * (8 * (8 * (8 * (8 * (8 * Pow8(7)))))));
    assert Pow8(21) == 8 * (8 * (8 * (8 * (8 * (8 * (8 * Pow8(14)))))));
  }

  function Quotient(k: nat, b: nat): nat
    requires b > 0
  {
    k / b
  }

  function Prefix(key: nat, level: nat): nat {
    Quotient(key, Pow8(level))
  }

  lemma DivDiv(key: nat, a: nat)
    requires a > 0
    ensures key / (8 * a) == (key / a) / 8
    ensures (key % (8 * a)) / a == (key / a) % 8
    ensures (key % (8 * a)) % a == key % a
  {
    var x, r := key / a, key % a;
    var y, z := x / 8, x % 8;
    assert key == a * x + r;
    assert x == 8 * y + z;
    Regrouped(a, x, y, z);
    SmallRest(a, z, r);
    DivideOnce(key, 8 * a, y, a * z + r);
    DivideOnce(a * z + r, a, z, r);
  }

  lemma Regrouped(a: nat, x: nat, y: nat, z: nat)
    requires x == 8 * y + z
    ensures a * x == (8 * a) * y + a * z
  {
  }

  lemma SmallRest(a: nat, z: nat, r: nat)
    requires z < 8 && r < a
    ensures a * z + r < 8 * a
  {
  }

  lemma DivideOnce(k: nat, b: nat, q: nat, r: nat)
    requires b > 0 && k == b * q + r && r < b
    ensures k / b == q && k % b == r
  {
    var d, m := k / b, k % b;
    assert k == b * d + m;
    if d < q { Larger(b, d, q); } else if d > q { Larger(b, q, d); }
  }

  lemma Larger(b: nat, d: nat, q: nat)
    requires d < q
    ensures b * d + b <= b * q
  {
    Times(b, d + 1, q);
    assert b * (d + 1) == b * d + b;
  }

  lemma Times(k: nat, a: nat, b: nat)
    requires a <= b
    ensures k * a <= k * b
  {
  }

  lemma DivOrder(a: nat, b: nat, w: nat)
    requires a <= b && w > 0
    ensures a / w <= b / w
  {
    var d, e := a / w, b / w;
    if d > e { Larger(w, e, d); }
  }

  lemma PrefixStep(key: nat, level: nat)
    ensures Prefix(key, level + 1) == Prefix(key, level) / 8
    ensures (key % Pow8(level + 1)) / Pow8(level) == Prefix(key, level) % 8
    ensures (key % Pow8(level + 1)) % Pow8(level) == key % Pow8(level)
  {
    DivDiv(key, Pow8(level));
  }

  lemma PrefixOrder(a: nat, b: nat, level: nat)
    requires a <= b
    ensures Prefix(a, level) <= Prefix(b, level)
  {
    DivOrder(a, b, Pow8(level));
  }

  lemma PrefixZero(key: nat, level: nat)
    ensures Prefix(key, level) == 0 <==> key < Pow8(level)
    ensures key < Pow8(level) ==> key % Pow8(level) == key
  {
  }

  lemma LeafPrefix(q: nat)
    ensures Prefix(8 * q, 1) == q
  {
    assert Pow8(1) == 8 * Pow8(0);
  }

  lemma {:induction false} Pow8Order(a: nat, b: nat)
    requires a <= b
    ensures Pow8(a) <= Pow8(b)
    decreases b
  {
    if a < b { Pow8Order(a, b - 1); }
  }

  // ---------------------------------------------------------------- the tree

  type Places = map<Pos, Ptr>

  function Kid(at: Places, pos: Pos, i: nat): Ptr {
    if pos.level > 0 && Pos(pos.level - 1, 8 * pos.prefix + i) in at then at[Pos(pos.level - 1, 8 * pos.prefix + i)]
        else NULL
  }

  ghost predicate NodeFits(nodes: Nodes, at: Places, height: nat, pos: Pos) {
    && pos in at && at[pos] != NULL && at[pos] in nodes
    && 1 <= pos.level <= height && (pos.level == height ==> pos.prefix == 0 && nodes[at[pos]].index == 0)
    && var n := nodes[at[pos]];
    && |n.entries| == 8
    && (pos.level < height ==> Pos(pos.level + 1, pos.prefix / 8) in at
                               && n.parent == at[Pos(pos.level + 1, pos.prefix / 8)] && n.index == pos.prefix % 8)
    && (pos.level > 1 ==> forall i :: 0 <= i < 8 ==> n.entries[i] == Kid(at, pos, i))
  }

  ghost predicate HasKid(at: Places, pos: Pos) {
    exists i :: 0 <= i < 8 && Kid(at, pos, i) != NULL
  }

  /** The node covers the key that is being inserted. */
  ghost predicate OnPath(path: nat, pos: Pos) {
    pos.prefix == Prefix(path, pos.level)
  }

  /** Every node is where it should be; only nodes covering `path` may still be without kids. */
  ghost predicate Web(nodes: Nodes, at: Places, height: nat, root: Ptr, path: nat) {
    && height >= 1 && Pos(height, 0) in at && root == at[Pos(height, 0)]
    && (forall pos :: pos in at ==> NodeFits(nodes, at, height, pos))
    && (forall a, b :: a in at && b in at && at[a] == at[b] ==> a == b)
    && (forall l :: 1 <= l <= height ==> Pos(l, 0) in at)
    && (forall pos :: pos in at && pos.level > 1 ==> HasKid(at, pos) || OnPath(path, pos))
  }

  ghost predicate Increasing(s: seq<nat>) {
    forall i, j :: 0 <= i < j < |s| ==> s[i] < s[j]
  }

  /** The prefixes of the leaves in ascending order. */
  ghost predicate Listed(at: Places, leaves: seq<nat>) {
    && Increasing(leaves)
    && (forall q :: q in leaves ==> Pos(1, q) in at)
    && (forall q :: Pos(1, q) in at ==> q in leaves)
  }

  /** The sibling pointers run through the leaves in order. */
  ghost predicate Chained(nodes: Nodes, at: Places, leaves: seq<nat>) {
    forall i :: 0 <= i < |leaves| ==>
      && Pos(1, leaves[i]) in at && at[Pos(1, leaves[i])] in nodes
      && nodes[at[Pos(1, leaves[i])]].sibling == NextIn(at, leaves, i)
  }

  ghost function NextIn(at: Places, leaves: seq<nat>, i: nat): Ptr {
    if i + 1 < |leaves| && Pos(1, leaves[i + 1]) in at then at[Pos(1, leaves[i + 1])] else NULL
  }

  /** The value bound to a key, or 0. */
  ghost function Bound(nodes: Nodes, at: Places, key: nat): int {
    if Pos(1, key / 8) in at && at[Pos(1, key / 8)] in nodes && |nodes[at[Pos(1, key / 8)]].entries| == 8
    then nodes[at[Pos(1, key / 8)]].entries[key % 8] else 0
  }

  // ---------------------------------------------------------------- facts by unfolding

  lemma WebParts(nodes: Nodes, at: Places, height: nat, root: Ptr, path: nat)
    requires Web(nodes, at, height, root, path)
    ensures height >= 1 && Pos(height, 0) in at && root == at[Pos(height, 0)]
    ensures forall pos :: pos in at ==> NodeFits(nodes, at, height, pos)
    ensures forall a, b :: a in at && b in at && at[a] == at[b] ==> a == b
    ensures forall l :: 1 <= l <= height ==> Pos(l, 0) in at
    ensures forall pos :: pos in at && pos.level > 1 ==> HasKid(at, pos) || OnPath(path, pos)
  {
    hide NodeFits, HasKid, OnPath;
  }

  lemma WebIs(nodes: Nodes, at: Places, height: nat, root: Ptr, path: nat)
    requires height >= 1 && Pos(height, 0) in at && root == at[Pos(height, 0)]
    requires forall pos :: pos in at ==> NodeFits(nodes, at, height, pos)
    requires forall a, b :: a in at && b in at && at[a] == at[b] ==> a == b
    requires forall l :: 1 <= l <= height ==> Pos(l, 0) in at
    requires forall pos :: pos in at && pos.level > 1 ==> HasKid(at, pos) || OnPath(path, pos)
    ensures Web(nodes, at, height, root, path)
  {
    hide NodeFits, HasKid, OnPath;
  }

  lemma FitsParts(nodes: Nodes, at: Places, height: nat, pos: Pos)
    requires NodeFits(nodes, at, height, pos)
    ensures pos in at && at[pos] != NULL && at[pos] in nodes && 1 <= pos.level <= height
      && (pos.level == height ==> pos.prefix == 0)
    ensures |nodes[at[pos]].entries| == 8 && (pos.level == height ==> nodes[at[pos]].index == 0)
    ensures pos.level < height ==> Pos(pos.level + 1, pos.prefix / 8) in at
    ensures pos.level < height ==>
      nodes[at[pos]].parent == at[Pos(pos.level + 1, pos.prefix / 8)] && nodes[at[pos]].index == pos.prefix % 8
    ensures pos.level > 1 ==> forall i :: 0 <= i < 8 ==> nodes[at[pos]].entries[i] == Kid(at, pos, i)
  {
    hide Kid;
  }

  lemma KidIs(at: Places, pos: Pos, i: nat)
    requires pos.level > 0
    ensures Kid(at, pos, i) == if Pos(pos.level - 1, 8 * pos.prefix + i) in at
      then at[Pos(pos.level - 1, 8 * pos.prefix + i)] else NULL
  {
  }

  // ---------------------------------------------------------------- ancestors

  /** Every node above an existing one exists. */
  lemma {:induction false} Ancestor(nodes: Nodes, at: Places, height: nat, root: Ptr, path: nat, key: nat, low: nat,
                                    level: nat)
    requires Web(nodes, at, height, root, path) && 1 <= low <= level <= height && Pos(low, Prefix(key, low)) in at
    ensures Pos(level, Prefix(key, level)) in at
    decreases level
  {
    hide *;
    if low < level {
      Ancestor(nodes, at, height, root, path, key, low, level - 1);
      WebParts(nodes, at, height, root, path);
      FitsParts(nodes, at, height, Pos(level - 1, Prefix(key, level - 1)));
      PrefixStep(key, level - 1);
    }
  }

  /** The kid on the way to a leaf below. */
  lemma KidTowards(nodes: Nodes, at: Places, height: nat, root: Ptr, path: nat, pos: Pos, q: nat)
    requires Web(nodes, at, height, root, path) && pos in at && pos.level > 1 && pos.level <= height
    requires Pos(1, q) in at && pos.prefix == Prefix(8 * q, pos.level)
    ensures var c := Pos(pos.level - 1, Prefix(8 * q, pos.level - 1));
      c in at && c.prefix / 8 == pos.prefix && Kid(at, pos, c.prefix % 8) == at[c] && at[c] != NULL
  {
    hide *;
    LeafPrefix(q);
    Ancestor(nodes, at, height, root, path, 8 * q, 1, pos.level - 1);
    PrefixStep(8 * q, pos.level - 1);
    KidIs(at, pos, Prefix(8 * q, pos.level - 1) % 8);
    WebParts(nodes, at, height, root, path);
    FitsParts(nodes, at, height, Pos(pos.level - 1, Prefix(8 * q, pos.level - 1)));
  }

  /** Nodes covering a key with a leaf have kids: nothing need be exempt. */
  lemma PathComplete(nodes: Nodes, at: Places, height: nat, root: Ptr, path: nat, path': nat)
    requires Web(nodes, at, height, root, path) && Pos(1, path / 8) in at
    ensures Web(nodes, at, height, root, path')
  {
    hide *;
    WebParts(nodes, at, height, root, path);
    forall pos | pos in at && pos.level > 1 ensures HasKid(at, pos) || OnPath(path', pos) {
      if !HasKid(at, pos) {
        FitsParts(nodes, at, height, pos);
        OnPathIs(path, pos);
        SamePrefixes(path, pos.level);
        KidTowards(nodes, at, height, root, path, pos, path / 8);
        HasKidIs(at, pos, Prefix(8 * (path / 8), pos.level - 1) % 8);
      }
    }
    WebIs(nodes, at, height, root, path');
  }

  lemma OnPathIs(path: nat, pos: Pos)
    ensures OnPath(path, pos) <==> pos.prefix == Prefix(path, pos.level)
  {
  }

  lemma HasKidIs(at: Places, pos: Pos, i: nat)
    requires i < 8 && Kid(at, pos, i) != NULL
    ensures HasKid(at, pos)
  {
  }

  /** From level 1 up, a key has the prefixes of the first key of its leaf. */
  lemma {:induction false} SamePrefixes(key: nat, level: nat)
    requires level >= 1
    ensures Prefix(8 * (key / 8), level) == Prefix(key, level)
    decreases level
  {
    if level == 1 {
      LeafPrefix(key / 8);
      assert Pow8(1) == 8 * Pow8(0);
    } else {
      SamePrefixes(key, level - 1);
      PrefixStep(key, level - 1);
      PrefixStep(8 * (key / 8), level - 1);
    }
  }

  lemma NotOnPath(path: nat, pos: Pos, i: nat)
    requires pos.level > 1 && pos.prefix != Prefix(path, pos.level) && i < 8
    ensures 8 * pos.prefix + i != Prefix(path, pos.level - 1)
  {
    PrefixStep(path, pos.level - 1);
  }

  // ---------------------------------------------------------------- a new node on the path

  /** Memory after a zeroed node a has been hung under pos as kid i; sibling pointers may differ. */
  ghost predicate Hung(nodes: Nodes, nodes': Nodes, at: Places, pos: Pos, i: nat, a: Ptr) {
    && pos in at && at[pos] in nodes && |nodes[at[pos]].entries| == 8 && i < 8 && a !in nodes && a != NULL
    && nodes'.Keys == nodes.Keys + {a}
    && |nodes'[a].entries| == 8 && (forall j :: 0 <= j < 8 ==> nodes'[a].entries[j] == NULL)
    && nodes'[a].parent == at[pos] && nodes'[a].index == i
    && nodes'[at[pos]] == nodes[at[pos]].(entries := nodes[at[pos]].entries[i := a], sibling := nodes'[at[pos]].sibling)
    && (forall x :: x in nodes && x != at[pos] ==> nodes'[x] == nodes[x].(sibling := nodes'[x].sibling))
  }

  lemma AddNode(nodes: Nodes, nodes': Nodes, at: Places, height: nat, root: Ptr, path: nat, pos: Pos, i: nat, a: Ptr)
    requires Web(nodes, at, height, root, path) && Hung(nodes, nodes', at, pos, i, a) && pos.level > 1
    requires Pos(pos.level - 1, 8 * pos.prefix + i) !in at && 8 * pos.prefix + i == Prefix(path, pos.level - 1)
    ensures Web(nodes', at[Pos(pos.level - 1, 8 * pos.prefix + i) := a], height, root, path)
  {
    hide *;
    var c := Pos(pos.level - 1, 8 * pos.prefix + i);
    var at' := at[c := a];
    WebParts(nodes, at, height, root, path);
    HungParts(nodes, nodes', at, pos, i, a);
    forall x | x in at' ensures NodeFits(nodes', at', height, x) {
      if x == c {
        NewFits(nodes, nodes', at, height, root, path, pos, i, a);
      } else {
        OldFits(nodes, nodes', at, height, root, path, pos, i, a, x);
      }
    }
    forall x, y | x in at' && y in at' && at'[x] == at'[y] ensures x == y {
      FitsIn(nodes, at, height, x);
      FitsIn(nodes, at, height, y);
    }
    forall x | x in at' && x.level > 1 ensures HasKid(at', x) || OnPath(path, x) {
      if x == c { OnPathIs(path, c); } else { MoreKids(at, c, a, x); }
    }
    WebIs(nodes', at', height, root, path);
  }

  lemma FitsIn(nodes: Nodes, at: Places, height: nat, x: Pos)
    requires x in at ==> NodeFits(nodes, at, height, x)
    ensures x in at ==> at[x] in nodes && at[x] != NULL
  {
  }

  lemma MoreKids(at: Places, c: Pos, a: Ptr, x: Pos)
    requires a != NULL
    ensures HasKid(at, x) ==> HasKid(at[c := a], x)
  {
    if HasKid(at, x) {
      var i :| 0 <= i < 8 && Kid(at, x, i) != NULL;
      assert Kid(at[c := a], x, i) != NULL;
    }
  }

  lemma HungParts(nodes: Nodes, nodes': Nodes, at: Places, pos: Pos, i: nat, a: Ptr)
    requires Hung(nodes, nodes', at, pos, i, a)
    ensures pos in at && at[pos] in nodes && |nodes[at[pos]].entries| == 8 && i < 8 && a !in nodes && a != NULL
    ensures nodes'.Keys == nodes.Keys + {a}
    ensures |nodes'[a].entries| == 8 && (forall j :: 0 <= j < 8 ==> nodes'[a].entries[j] == NULL)
    ensures nodes'[a].parent == at[pos] && nodes'[a].index == i
    ensures nodes'[at[pos]] == nodes[at[pos]].(entries := nodes[at[pos]].entries[i := a],
      sibling := nodes'[at[pos]].sibling)
    ensures forall x :: x in nodes && x != at[pos] ==> nodes'[x] == nodes[x].(sibling := nodes'[x].sibling)
  {
  }

  lemma FitsIs(nodes: Nodes, at: Places, height: nat, pos: Pos)
    requires pos in at && at[pos] != NULL && at[pos] in nodes && 1 <= pos.level <= height
    requires pos.level == height ==> pos.prefix == 0 && nodes[at[pos]].index == 0
    requires |nodes[at[pos]].entries| == 8
    requires pos.level < height ==> Pos(pos.level + 1, pos.prefix / 8) in at
    requires pos.level < height ==>
      nodes[at[pos]].parent == at[Pos(pos.level + 1, pos.prefix / 8)] && nodes[at[pos]].index == pos.prefix % 8
    requires pos.level > 1 ==> forall i :: 0 <= i < 8 ==> nodes[at[pos]].entries[i] == Kid(at, pos, i)
    ensures NodeFits(nodes, at, height, pos)
  {
    hide Kid;
  }

  lemma NewFits(nodes: Nodes, nodes': Nodes, at: Places, height: nat, root: Ptr, path: nat, pos: Pos, i: nat, a: Ptr)
    requires Web(nodes, at, height, root, path) && Hung(nodes, nodes', at, pos, i, a) && pos.level > 1
    requires Pos(pos.level - 1, 8 * pos.prefix + i) !in at
    ensures NodeFits(nodes', at[Pos(pos.level - 1, 8 * pos.prefix + i) := a], height,
      Pos(pos.level - 1, 8 * pos.prefix + i))
  {
    hide *;
    var c := Pos(pos.level - 1, 8 * pos.prefix + i);
    var at' := at[c := a];
    WebParts(nodes, at, height, root, path);
    HungParts(nodes, nodes', at, pos, i, a);
    FitsParts(nodes, at, height, pos);
    forall j: nat | 0 <= j < 8 ensures c.level > 1 ==> Kid(at', c, j) == NULL {
      if c.level > 1 {
        KidIs(at', c, j);
        var d := Pos(c.level - 1, 8 * c.prefix + j);
        if d in at { FitsParts(nodes, at, height, d); }
      }
    }
    FitsIs(nodes', at', height, c);
  }

  lemma OldFits(nodes: Nodes, nodes': Nodes, at: Places, height: nat, root: Ptr, path: nat, pos: Pos, i: nat, a: Ptr,
                x: Pos)
    requires Web(nodes, at, height, root, path) && Hung(nodes, nodes', at, pos, i, a) && pos.level > 1
    requires Pos(pos.level - 1, 8 * pos.prefix + i) !in at && x in at
    ensures NodeFits(nodes', at[Pos(pos.level - 1, 8 * pos.prefix + i) := a], height, x)
  {
    hide *;
    var c := Pos(pos.level - 1, 8 * pos.prefix + i);
    var at' := at[c := a];
    WebParts(nodes, at, height, root, path);
    HungParts(nodes, nodes', at, pos, i, a);
    FitsParts(nodes, at, height, x);
    if x != pos { assert at[x] != at[pos]; }
    forall j: nat | 0 <= j < 8 ensures x.level > 1 ==> nodes'[at[x]].entries[j] == Kid(at', x, j) {
      if x.level > 1 {
        KidIs(at, x, j);
        KidIs(at', x, j);
        SameKid(pos, i, x, j);
      }
    }
    FitsIs(nodes', at', height, x);
  }

  lemma SameKid(pos: Pos, i: nat, x: Pos, j: nat)
    requires i < 8 && j < 8 && pos.level > 0 && x.level > 0
    ensures Pos(pos.level - 1, 8 * pos.prefix + i) == Pos(x.level - 1, 8 * x.prefix + j) ==> pos == x && i == j
  {
  }

  /** An empty node binds nothing. */
  lemma BoundAfterHung(nodes: Nodes, nodes': Nodes, at: Places, height: nat, root: Ptr, path: nat, pos: Pos, i: nat,
                       a: Ptr, key: nat)
    requires Web(nodes, at, height, root, path) && Hung(nodes, nodes', at, pos, i, a) && pos.level > 1
    requires Pos(pos.level - 1, 8 * pos.prefix + i) !in at
    ensures Bound(nodes', at[Pos(pos.level - 1, 8 * pos.prefix + i) := a], key) == Bound(nodes, at, key)
  {
    hide Web, NodeFits;
    var c := Pos(pos.level - 1, 8 * pos.prefix + i);
    WebParts(nodes, at, height, root, path);
    if Pos(1, key / 8) in at {
      FitsParts(nodes, at, height, Pos(1, key / 8));
      assert Pos(1, key / 8) != pos;
    }
  }

  lemma BoundsAfterHung(nodes: Nodes, nodes': Nodes, at: Places, height: nat, root: Ptr, path: nat, pos: Pos, i: nat,
                        a: Ptr)
    requires Web(nodes, at, height, root, path) && Hung(nodes, nodes', at, pos, i, a) && pos.level > 1
    requires Pos(pos.level - 1, 8 * pos.prefix + i) !in at
    ensures forall key :: Bound(nodes', at[Pos(pos.level - 1, 8 * pos.prefix + i) := a], key) == Bound(nodes, at, key)
  {
    hide *;
    forall key: nat ensures Bound(nodes', at[Pos(pos.level - 1, 8 * pos.prefix + i) := a], key)
        == Bound(nodes, at, key) {
      BoundAfterHung(nodes, nodes', at, height, root, path, pos, i, a, key);
    }
  }

  // ---------------------------------------------------------------- a leaf entry, a new root

  lemma SetEntry(nodes: Nodes, nodes': Nodes, at: Places, height: nat, root: Ptr, path: nat, q: nat, i: nat, v: int)
    requires Web(nodes, at, height, root, path) && Pos(1, q) in at && at[Pos(1, q)] in nodes
      && |nodes[at[Pos(1, q)]].entries| == 8 && i < 8
    requires nodes' == nodes[at[Pos(1, q)] := nodes[at[Pos(1, q)]].(entries := nodes[at[Pos(1, q)]].entries[i := v])]
    ensures Web(nodes', at, height, root, path)
    ensures forall key :: Bound(nodes', at, key) == if key == 8 * q + i then v else Bound(nodes, at, key)
  {
    hide Web, HasKid, OnPath, Kid;
    WebParts(nodes, at, height, root, path);
    forall x | x in at ensures NodeFits(nodes', at, height, x) {
      FitsParts(nodes, at, height, x);
      if x != Pos(1, q) { assert at[x] != at[Pos(1, q)]; }
      FitsIs(nodes', at, height, x);
    }
    WebIs(nodes', at, height, root, path);
    forall key: nat ensures Bound(nodes', at, key) == if key == 8 * q + i then v else Bound(nodes, at, key) {
      if key / 8 != q && Pos(1, key / 8) in at { assert at[Pos(1, key / 8)] != at[Pos(1, q)]; }
    }
  }

  lemma GrowRoot(nodes: Nodes, nodes': Nodes, at: Places, height: nat, root: Ptr, path: nat, r: Ptr)
    requires Web(nodes, at, height, root, path) && Pos(1, 0) in at && root in nodes && r !in nodes && r != NULL
      && r in nodes'
    requires nodes' == nodes[r := nodes'[r]][root := nodes[root].(parent := r)]
    requires |nodes'[r].entries| == 8 && nodes'[r].entries[0] == root
      && (forall j :: 1 <= j < 8 ==> nodes'[r].entries[j] == NULL) && nodes'[r].index == 0
    ensures Web(nodes', at[Pos(height + 1, 0) := r], height + 1, r, path)
    ensures forall key :: Bound(nodes', at[Pos(height + 1, 0) := r], key) == Bound(nodes, at, key)
  {
    hide Web, HasKid, OnPath, Kid, NodeFits;
    var top := Pos(height + 1, 0);
    var at' := at[top := r];
    WebParts(nodes, at, height, root, path);
    forall x | x in at ensures x.level <= height && (x.level == height ==> x.prefix == 0) && at[x] in nodes
        && at[x] != NULL {
      FitsParts(nodes, at, height, x);
    }
    forall x | x in at' ensures NodeFits(nodes', at', height + 1, x) {
      if x == top {
        TopKids(at, at', height, top, r, root);
        FitsIs(nodes', at', height + 1, top);
      } else {
        FitsParts(nodes, at, height, x);
        if x.level == height { assert x == Pos(height, 0); } else { assert at[x] != root; }
        forall j: nat | 0 <= j < 8 ensures x.level > 1 ==> Kid(at', x, j) == Kid(at, x, j) {
          if x.level > 1 { KidIs(at, x, j); KidIs(at', x, j); }
        }
        FitsIs(nodes', at', height + 1, x);
      }
    }
    forall x | x in at' && x.level > 1 ensures HasKid(at', x) || OnPath(path, x) {
      if x == top { TopKids(at, at', height, top, r, root); HasKidIs(at', top, 0); } else { MoreKids(at, top, r, x); }
    }
    WebIs(nodes', at', height + 1, r, path);
    forall key: nat ensures Bound(nodes', at', key) == Bound(nodes, at, key) {
      assert Pos(1, key / 8) != top;
    }
  }

  lemma TopKids(at: Places, at': Places, height: nat, top: Pos, r: Ptr, root: Ptr)
    requires Pos(height, 0) in at && at[Pos(height, 0)] == root && root != NULL && top == Pos(height + 1, 0)
      && at' == at[top := r]
    requires forall x :: x in at && x.level == height ==> x.prefix == 0
    ensures Kid(at', top, 0) == root
    ensures forall j :: 1 <= j < 8 ==> Kid(at', top, j) == NULL
  {
  }

  // ---------------------------------------------------------------- the leaf list

  /** A new leaf enters the list behind its predecessor. */
  lemma ChainGrows(nodes: Nodes, nodes': Nodes, at: Places, leaves: seq<nat>, k: nat, q: nat, a: Ptr)
    requires Listed(at, leaves) && Chained(nodes, at, leaves) && 0 < k <= |leaves| && Pos(1, q) !in at && a !in nodes
    requires leaves[k - 1] < q && (k < |leaves| ==> q < leaves[k])
    requires forall x, y :: x in at && y in at && at[x] == at[y] ==> x == y
    requires nodes'.Keys == nodes.Keys + {a}
    requires nodes'[a].sibling == NextIn(at, leaves, k - 1)
    requires Pos(1, leaves[k - 1]) in at && at[Pos(1, leaves[k - 1])] in nodes'
      && nodes'[at[Pos(1, leaves[k - 1])]].sibling == a
    requires forall x :: x in nodes && x != at[Pos(1, leaves[k - 1])] ==> nodes'[x].sibling == nodes[x].sibling
    ensures Chained(nodes', at[Pos(1, q) := a], leaves[..k] + [q] + leaves[k..])
  {
    hide Listed, Chained;
    var at', leaves' := at[Pos(1, q) := a], leaves[..k] + [q] + leaves[k..];
    ListParts(at, leaves);
    GrownList(leaves, k, q);
    forall i | 0 <= i < |leaves'|
      ensures ChainedAt(nodes', at', leaves', i)
    {
      if i == k {
        ChainedNew(nodes', at, at', leaves, leaves', k, q, a);
      } else {
        var j := if i < k then i else i - 1;
        ChainParts(nodes, at, leaves, j);
        ChainedOld(nodes, nodes', at, at', leaves, leaves', k, q, a, i, j);
      }
    }
    ChainIs(nodes', at', leaves');
  }

  ghost predicate ChainedAt(nodes: Nodes, at: Places, leaves: seq<nat>, i: nat) {
    i < |leaves| && Pos(1, leaves[i]) in at && at[Pos(1, leaves[i])] in nodes
        && nodes[at[Pos(1, leaves[i])]].sibling == NextIn(at, leaves, i)
  }

  lemma ListParts(at: Places, leaves: seq<nat>)
    requires Listed(at, leaves)
    ensures Increasing(leaves) && forall i :: 0 <= i < |leaves| ==> Pos(1, leaves[i]) in at
    ensures forall q :: Pos(1, q) in at ==> q in leaves
  {
    hide Increasing;
  }

  lemma ChainParts(nodes: Nodes, at: Places, leaves: seq<nat>, i: nat)
    requires Chained(nodes, at, leaves) && i < |leaves|
    ensures ChainedAt(nodes, at, leaves, i)
  {
    hide NextIn;
  }

  lemma ChainIs(nodes: Nodes, at: Places, leaves: seq<nat>)
    requires forall i :: 0 <= i < |leaves| ==> ChainedAt(nodes, at, leaves, i)
    ensures Chained(nodes, at, leaves)
  {
    hide NextIn;
    forall i | 0 <= i < |leaves|
      ensures Pos(1, leaves[i]) in at && at[Pos(1, leaves[i])] in nodes
        && nodes[at[Pos(1, leaves[i])]].sibling == NextIn(at, leaves, i)
    {
      assert ChainedAt(nodes, at, leaves, i);
    }
  }

  lemma GrownList(leaves: seq<nat>, k: nat, q: nat)
    requires k <= |leaves|
    ensures var leaves' := leaves[..k] + [q] + leaves[k..];
      |leaves'| == |leaves| + 1 && leaves'[k] == q && forall i ::
          0 <= i < |leaves'| && i != k ==> leaves'[i] == leaves[if i < k then i else i - 1]
  {
  }

  lemma ChainedNew(nodes': Nodes, at: Places, at': Places, leaves: seq<nat>, leaves': seq<nat>, k: nat, q: nat, a: Ptr)
    requires 0 < k <= |leaves| && Pos(1, q) !in at && at' == at[Pos(1, q) := a] && a in nodes'
    requires |leaves'| == |leaves| + 1 && leaves'[k] == q && forall i ::
      0 <= i < |leaves'| && i != k ==> leaves'[i] == leaves[if i < k then i else i - 1]
    requires forall i :: 0 <= i < |leaves| ==> Pos(1, leaves[i]) in at
    requires nodes'[a].sibling == NextIn(at, leaves, k - 1)
    ensures ChainedAt(nodes', at', leaves', k)
  {
  }

  lemma ChainedOld(nodes: Nodes, nodes': Nodes, at: Places, at': Places, leaves: seq<nat>, leaves': seq<nat>, k: nat,
                   q: nat, a: Ptr, i: nat, j: nat)
    requires 0 < k <= |leaves| && Pos(1, q) !in at && at' == at[Pos(1, q) := a] && Increasing(leaves)
    requires |leaves'| == |leaves| + 1 && leaves'[k] == q && forall i ::
      0 <= i < |leaves'| && i != k ==> leaves'[i] == leaves[if i < k then i else i - 1]
    requires forall i :: 0 <= i < |leaves| ==> Pos(1, leaves[i]) in at
    requires forall x, y :: x in at && y in at && at[x] == at[y] ==> x == y
    requires nodes'.Keys == nodes.Keys + {a} && at[Pos(1, leaves[k - 1])] in nodes'
      && nodes'[at[Pos(1, leaves[k - 1])]].sibling == a
    requires forall x :: x in nodes && x != at[Pos(1, leaves[k - 1])] ==> nodes'[x].sibling == nodes[x].sibling
    requires i < |leaves'| && i != k && j == (if i < k then i else i - 1) && ChainedAt(nodes, at, leaves, j)
    ensures ChainedAt(nodes', at', leaves', i)
  {
    assert leaves'[i] == leaves[j];
    if j != k - 1 {
      assert leaves[j] != leaves[k - 1];
      assert at[Pos(1, leaves[j])] != at[Pos(1, leaves[k - 1])];
      if i + 1 < |leaves'| { assert leaves'[i + 1] == leaves[j + 1]; }
    }
  }

  lemma ListGrows(at: Places, leaves: seq<nat>, k: nat, q: nat, a: Ptr)
    requires Listed(at, leaves) && k <= |leaves| && (k > 0 ==> leaves[k - 1] < q) && (k < |leaves| ==> q < leaves[k])
    ensures Listed(at[Pos(1, q) := a], leaves[..k] + [q] + leaves[k..])
  {
    var leaves' := leaves[..k] + [q] + leaves[k..];
    GrownList(leaves, k, q);
    forall p | p in leaves ensures p in leaves' {
      var i :| 0 <= i < |leaves| && leaves[i] == p;
      assert leaves'[if i < k then i else i + 1] == p;
    }
    GrownIncreasing(leaves, k, q);
    hide Increasing;
  }

  lemma GrownIncreasing(leaves: seq<nat>, k: nat, q: nat)
    requires Increasing(leaves) && k <= |leaves| && (k > 0 ==> leaves[k - 1] < q) && (k < |leaves| ==> q < leaves[k])
    ensures Increasing(leaves[..k] + [q] + leaves[k..])
  {
    var leaves' := leaves[..k] + [q] + leaves[k..];
    GrownList(leaves, k, q);
    forall i, j | 0 <= i < j < |leaves'| ensures leaves'[i] < leaves'[j] {
      if k > 0 { assert forall m :: 0 <= m < k ==> leaves[m] <= leaves[k - 1]; }
      if k < |leaves| { assert forall m :: k <= m < |leaves| ==> leaves[k] <= leaves[m]; }
    }
  }

  /** Number of listed prefixes below q. */
  ghost function Rank(leaves: seq<nat>, q: nat): (k: nat)
    ensures k <= |leaves|
    ensures forall i :: 0 <= i < k ==> leaves[i] < q
    ensures k < |leaves| ==> q <= leaves[k]
    decreases |leaves|
  {
    if leaves == [] || q <= leaves[0] then 0 else 1 + Rank(leaves[1..], q)
  }

  /** Everything but the new leaf stays where it was; a new inner node is no leaf. */
  lemma ListKept(at: Places, leaves: seq<nat>, c: Pos, a: Ptr)
    requires Listed(at, leaves) && c.level != 1
    ensures Listed(at[c := a], leaves)
  {
    hide Increasing;
  }

  lemma ChainKept(nodes: Nodes, nodes': Nodes, at: Places, leaves: seq<nat>, c: Pos, a: Ptr)
    requires Chained(nodes, at, leaves) && c.level != 1
    requires forall x :: x in nodes ==> x in nodes' && nodes'[x].sibling == nodes[x].sibling
    ensures Chained(nodes', at[c := a], leaves)
  {
    hide Chained;
    var at' := at[c := a];
    forall i | 0 <= i < |leaves| ensures ChainedAt(nodes', at', leaves, i) {
      ChainParts(nodes, at, leaves, i);
      assert Pos(1, leaves[i]) in at && at'[Pos(1, leaves[i])] == at[Pos(1, leaves[i])];
      assert NextIn(at', leaves, i) == NextIn(at, leaves, i);
    }
    ChainIs(nodes', at', leaves);
  }

  /** The predecessor found is the one before the new prefix's place in the list. */
  lemma RankIsBehind(at: Places, leaves: seq<nat>, q: nat, prev: nat)
    requires Listed(at, leaves) && Pos(1, q) !in at && Pos(1, prev) in at && prev < q
    requires forall x: nat :: Pos(1, x) in at && x < q ==> x <= prev
    ensures var k := Rank(leaves, q); 0 < k && leaves[k - 1] == prev && (k < |leaves| ==> q < leaves[k])
  {
    hide Rank;
    var k := Rank(leaves, q);
    var i :| 0 <= i < |leaves| && leaves[i] == prev;
    assert i < k;
    assert Pos(1, leaves[k - 1]) in at;
    if k < |leaves| { assert Pos(1, leaves[k]) in at; }
  }

  lemma RankFits(at: Places, leaves: seq<nat>, q: nat)
    requires Listed(at, leaves) && Pos(1, q) !in at
    ensures var k := Rank(leaves, q); (k > 0 ==> leaves[k - 1] < q) && (k < |leaves| ==> q < leaves[k])
  {
    hide Rank;
    var k := Rank(leaves, q);
    if k < |leaves| { assert Pos(1, leaves[k]) in at; }
  }
}
