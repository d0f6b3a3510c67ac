/** The write-atomic radix tree in its two forms: leaves found by climbing parent pointers, or
    threaded on a sibling list. */
module RadixTree {
  import opened RadixShape

  class Tree {
    /** Leaves are linked to their successors. */
    const threaded: bool
    var root: Ptr
    var height: nat
    var nodes: Nodes
    var brk: Ptr
    ghost var at: Places
    ghost var leaves: seq<nat>

    ghost predicate MemOk()
      reads this`nodes, this`brk
    {
      brk > 0 && forall x :: x in nodes ==> 0 < x < brk
    }

    /** Nodes covering `path` may be without kids. */
    ghost predicate ValidBut(path: nat)
      reads this
    {
      MemOk() && Web(nodes, at, height, root, path) && Listed(at, leaves) && (threaded ==> Chained(nodes, at, leaves))
    }

    ghost predicate Valid()
      reads this
    {
      ValidBut(0)
    }

    /** The value bound to a key, or 0. */
    ghost function Value(key: nat): int
      reads this`nodes, this`at
    {
      Bound(nodes, at, key)
    }

    /** There is a leaf for the key. */
    ghost predicate HasPath(key: nat)
      reads this`at
    {
      Pos(1, key / 8) in at
    }

    /** `initTree`: one empty leaf. */
    constructor (threaded: bool)
      ensures Valid() && this.threaded == threaded && height == 1 && (forall key :: Value(key) == 0)
    {
      this.threaded := threaded;
      root, height, brk := 1, 1, 2;
      nodes := map[1 := Node(seq(8, _ => 0), NULL, NULL, 0)];
      at, leaves := map[Pos(1, 0) := 1], [0];
      new;
      FirstTree(nodes[1]);
    }

    lemma ButParts(path: nat)
      requires ValidBut(path)
      ensures MemOk() && Web(nodes, at, height, root, path) && Listed(at, leaves)
        && (threaded ==> Chained(nodes, at, leaves))
      ensures brk > 0 && forall x :: x in nodes ==> 0 < x < brk
    {
    }

    lemma ButIs(path: nat)
      requires brk > 0 && (forall x :: x in nodes ==> 0 < x < brk)
      requires Web(nodes, at, height, root, path) && Listed(at, leaves) && (threaded ==> Chained(nodes, at, leaves))
      ensures ValidBut(path)
    {
    }

    lemma ValidIsBut()
      ensures Valid() <==> ValidBut(0)
    {
    }

    // -------------------------------------------------------------- the neighbours of a leaf

    /** The last leaf below a branch that is complete. */
    method SearchToPrevLeaf(branch: Ptr, level: nat, ghost pos: Pos, ghost path: nat) returns (leaf: Ptr, ghost q: nat)
      requires Web(nodes, at, height, root, path) && pos in at && at[pos] == branch && pos.level == level >= 1
      requires level > 1 ==> pos.prefix != Prefix(path, level)
      ensures Pos(1, q) in at && leaf == at[Pos(1, q)] && Prefix(8 * q, level) == pos.prefix
      ensures LastUnder(at, level, pos.prefix, q)
      decreases level
    {
      hide *;
      WebParts(nodes, at, height, root, path);
      FitsParts(nodes, at, height, pos);
      if level != 1 {
        var i := 7;
        while i >= 0
          invariant -1 <= i < 8 && (forall j :: i < j < 8 ==> Kid(at, pos, j) == NULL)
        {
          if nodes[branch].entries[i] != NULL {
            KidIs(at, pos, i);
            ghost var c := Pos(level - 1, 8 * pos.prefix + i);
            NotOnPath(path, pos, i);
            leaf, q := SearchToPrevLeaf(nodes[branch].entries[i], level - 1, c, path);
            PrefixStep(8 * q, level - 1);
            LastOfKid(nodes, at, height, root, path, pos, i, q);
            return;
          }
          i := i - 1;
        }
        OnPathIs(path, pos);
        NoKid(at, pos);
      } else {
        leaf, q := branch, pos.prefix;
        OneLeaf(pos.prefix);
        LastUnderIs(at, level, pos.prefix, q);
      }
    }

    /** The last leaf before entry `index` of a node, climbing if there is none beside it. */
    method FindPrevLeaf(parent: Ptr, index: nat, level: nat, ghost pos: Pos, ghost path: nat)
        returns (leaf: Ptr, ghost q: nat)
      requires Web(nodes, at, height, root, path) && pos in at && at[pos] == parent && pos.level == level >= 2
        && index < 8
      requires 8 * pos.prefix + index == Prefix(path, level - 1) > 0
      ensures Pos(1, q) in at && leaf == at[Pos(1, q)] && Prefix(8 * q, level - 1) < 8 * pos.prefix + index
      ensures LastBefore(at, level - 1, 8 * pos.prefix + index, q)
      decreases height - level
    {
      hide *;
      WebParts(nodes, at, height, root, path);
      FitsParts(nodes, at, height, pos);
      var i: int := index - 1;
      while i >= 0
        invariant -1 <= i < index && (forall j :: i < j < index ==> Kid(at, pos, j) == NULL)
      {
        if nodes[parent].entries[i] != NULL {
          KidIs(at, pos, i);
          ghost var c := Pos(level - 1, 8 * pos.prefix + i);
          leaf, q := SearchToPrevLeaf(nodes[parent].entries[i], level - 1, c, path);
          LastBesideKid(nodes, at, height, root, path, pos, i, index, q);
          return;
        }
        i := i - 1;
      }
      NoneBeside(nodes, at, height, root, path, pos, index);
      PrefixStep(path, level - 1);
      leaf, q := FindPrevLeaf(nodes[parent].parent, nodes[parent].index, level + 1, Pos(level + 1, pos.prefix / 8),
          path);
      LastBeforeParts(at, level, pos.prefix, q);
      LastBeforeIs(at, level - 1, 8 * pos.prefix + index, q);
    }

    // -------------------------------------------------------------- new nodes

    /** A zeroed node under a parent. */
    method AllocNode(parent: Ptr, index: nat) returns (a: Ptr)
      requires brk > 0 && forall x :: x in nodes ==> 0 < x < brk
      modifies this`nodes, this`brk
      ensures a !in old(nodes) && a > 0 && brk > a && (forall x :: x in nodes ==> 0 < x < brk)
      ensures a in nodes && nodes == old(nodes)[a := nodes[a]] && Zeroed(nodes[a]) && nodes[a].parent == parent
        && nodes[a].index == index
    {
      a := brk;
      brk := brk + 1;
      nodes := nodes[a := Node(seq(8, _ => 0), parent, NULL, index)];
    }

    /** A new leaf, linked behind its predecessor. */
    method AllocLeaf(parent: Ptr, index: nat, ghost pos: Pos, ghost path: nat) returns (a: Ptr, ghost prev: nat)
      requires brk > 0 && forall x :: x in nodes ==> 0 < x < brk
      requires Web(nodes, at, height, root, path) && pos in at && at[pos] == parent && pos.level == 2 && index < 8
      requires 8 * pos.prefix + index == Prefix(path, 1) > 0
      modifies this`nodes, this`brk
      ensures a !in old(nodes) && a > 0 && brk > a && (forall x :: x in nodes ==> 0 < x < brk)
      ensures Pos(1, prev) in at && prev < 8 * pos.prefix + index && LastBefore(at, 1, 8 * pos.prefix + index, prev)
      ensures at[Pos(1, prev)] in old(nodes) && a in nodes
      ensures var p := at[Pos(1, prev)];
        nodes == old(nodes)[a := nodes[a]][p := old(nodes)[p].(sibling := a)] && Zeroed(nodes[a])
        && nodes[a].parent == parent && nodes[a].index == index && nodes[a].sibling == old(nodes)[p].sibling
    {
      hide *;
      a := brk;
      brk := brk + 1;
      var prevLeaf;
      prevLeaf, prev := FindPrevLeaf(parent, index, 2, pos, path);
      LeafPrefix(prev);
      WebParts(nodes, at, height, root, path);
      FitsIn(nodes, at, height, Pos(1, prev));
      nodes := nodes[a := Node(seq(8, _ => 0), parent, nodes[prevLeaf].sibling, index)];
      nodes := nodes[prevLeaf := nodes[prevLeaf].(sibling := a)];
      ZeroedIs(nodes[a]);
    }

    lemma ZeroedIs(n: Node)
      requires |n.entries| == 8 && forall j :: 0 <= j < 8 ==> n.entries[j] == 0
      ensures Zeroed(n)
    {
    }

    /** Hang a new node as kid `index` of a node on the path. */
    method AddKid(parent: Ptr, index: nat, level: nat, ghost pos: Pos, ghost path: nat)
      requires ValidBut(path) && pos in at && at[pos] == parent && pos.level == level >= 2 && index < 8
      requires 8 * pos.prefix + index == Prefix(path, level - 1) && Pos(level - 1, 8 * pos.prefix + index) !in at
      modifies this`nodes, this`brk, this`at, this`leaves
      ensures ValidBut(path) && Pos(level - 1, 8 * pos.prefix + index) in at && Grown(old(at), at)
      ensures forall key :: Value(key) == old(Value(key))
    {
      hide *;
      ButParts(path);
      ValuesAre();
      WebParts(nodes, at, height, root, path);
      FitsParts(nodes, at, height, pos);
      ghost var nodes0, at0 := nodes, at;
      ghost var c := Pos(level - 1, 8 * pos.prefix + index);
      SpineLeaf(nodes, at, height, root, path, c);
      var a;
      ghost var prev := 0;
      var asLeaf := threaded && level == 2;
      if asLeaf {
        a, prev := AllocLeaf(parent, index, pos, path);
      } else {
        a := AllocNode(parent, index);
      }
      ghost var nodes1 := nodes;
      nodes := nodes[parent := nodes[parent].(entries := nodes[parent].entries[index := a])];
      if asLeaf {
        HungLeaf(nodes0, nodes1, nodes, at, pos, index, a, at[Pos(1, prev)]);
      } else {
        HungPlain(nodes0, nodes1, nodes, at, pos, index, a);
      }
      AddNode(nodes0, nodes, at, height, root, path, pos, index, a);
      BoundsAfterHung(nodes0, nodes, at, height, root, path, pos, index, a);
      leaves := ListAfter(threaded, nodes0, nodes, at, leaves, c, a, prev);
      at := at[c := a];
      ButIs(path);
      ValuesAre();
      GrownIs(at0, c, a);
    }

    lemma ValuesAre()
      ensures forall key :: Value(key) == Bound(nodes, at, key)
    {
    }

    // -------------------------------------------------------------- insertion

    /** `recursive_alloc_nodes`: make the path below a node and store the value in its leaf.  k is what
        is left of the key here.  A null value is stored too, and reported as a failure. */
    method RecursiveAlloc(levelPtr: Ptr, k: nat, value: int, level: nat, ghost pos: Pos, ghost key: nat)
        returns (errval: int)
      requires ValidBut(key) && pos in at && at[pos] == levelPtr && pos.level == level >= 1
      requires pos.prefix == Prefix(key, level) && k == key % Pow8(level)
      modifies this`nodes, this`brk, this`at, this`leaves
      ensures ValidBut(key) && HasPath(key) && Grown(old(at), at)
      ensures forall x: nat :: Value(x) == if x == key then value else old(Value(x))
      ensures errval == if value == 0 then -1 else 0
      decreases level
    {
      hide *;
      if level == 1 {
        errval := StoreValue(levelPtr, k, value, pos, key);
        return;
      }
      PrefixStep(key, level - 1);
      ghost var at0 := at;
      var kid := KidFor(levelPtr, k / Pow8(level - 1), level, pos, key);
      ghost var at1 := at;
      errval := RecursiveAlloc(kid, k % Pow8(level - 1), value, level - 1, Pos(level - 1, Prefix(key, level - 1)), key);
      GrownTwice(at0, at1, at);
    }

    /** The leaf entry for the key takes the value. */
    method StoreValue(leaf: Ptr, k: nat, value: int, ghost pos: Pos, ghost key: nat) returns (errval: int)
      requires ValidBut(key) && pos in at && at[pos] == leaf && pos.level == 1
      requires pos.prefix == Prefix(key, 1) && k == key % Pow8(1)
      modifies this`nodes
      ensures ValidBut(key) && HasPath(key) && Grown(old(at), at)
      ensures forall x: nat :: Value(x) == if x == key then value else old(Value(x))
      ensures errval == if value == 0 then -1 else 0
    {
      hide *;
      ButParts(key);
      ValuesAre();
      WebParts(nodes, at, height, root, key);
      FitsParts(nodes, at, height, pos);
      var index := k / Pow8(0);
      LeafIndex(key, pos.prefix, index);
      ghost var nodes0 := nodes;
      nodes := nodes[leaf := nodes[leaf].(entries := nodes[leaf].entries[index := value])];
      assert pos == Pos(1, pos.prefix);
      SetEntry(nodes0, nodes, at, height, root, key, pos.prefix, index, value);
      if threaded { SiblingsKept(nodes0, nodes, at, leaves); }
      ButIs(key);
      ValuesAre();
      GrownSelf(at);
      HasPathIs(key);
      NullIsZero();
      errval := if nodes[leaf].entries[index] == NULL then -1 else 0;
    }

    /** The kid on the path, made if it is missing. */
    method KidFor(levelPtr: Ptr, index: nat, level: nat, ghost pos: Pos, ghost key: nat) returns (kid: Ptr)
      requires ValidBut(key) && pos in at && at[pos] == levelPtr && pos.level == level >= 2
      requires pos.prefix == Prefix(key, level) && index < 8 && 8 * pos.prefix + index == Prefix(key, level - 1)
      modifies this`nodes, this`brk, this`at, this`leaves
      ensures ValidBut(key) && Grown(old(at), at)
      ensures Pos(level - 1, Prefix(key, level - 1)) in at && kid == at[Pos(level - 1, Prefix(key, level - 1))]
      ensures forall x: nat :: Value(x) == old(Value(x))
    {
      hide *;
      ButParts(key);
      WebParts(nodes, at, height, root, key);
      FitsParts(nodes, at, height, pos);
      ghost var c := Pos(level - 1, Prefix(key, level - 1));
      KidIs(at, pos, index);
      FitsIn(nodes, at, height, c);
      GrownSelf(at);
      ghost var at0 := at;
      if nodes[levelPtr].entries[index] == NULL {
        AddKid(levelPtr, index, level, pos, key);
      }
      ButParts(key);
      GrownAt(at0, at, pos);
      WebParts(nodes, at, height, root, key);
      FitsParts(nodes, at, height, pos);
      KidIs(at, pos, index);
      kid := nodes[levelPtr].entries[index];
    }

    lemma HasPathIs(key: nat)
      ensures HasPath(key) <==> Pos(1, key / 8) in at
    {
    }

    /** New roots over the old one until the height is reached. */
    method IncreaseHeight(newHeight: nat)
      requires Valid() && newHeight >= height
      modifies this`root, this`height, this`nodes, this`brk, this`at
      ensures Valid() && height == newHeight && Grown(old(at), at)
      ensures forall x: nat :: Value(x) == old(Value(x))
    {
      hide *;
      ValidIsBut();
      ButParts(0);
      ValuesAre();
      GrownSelf(at);
      while height < newHeight
        invariant ValidBut(0) && height <= newHeight && Grown(old(at), at)
        invariant forall x: nat :: Value(x) == old(Value(x))
        decreases newHeight - height
      {
        AddRoot();
      }
      ValidIsBut();
    }

    method AddRoot()
      requires ValidBut(0)
      modifies this`root, this`height, this`nodes, this`brk, this`at
      ensures ValidBut(0) && height == old(height) + 1 && (forall a :: Grown(a, old(at)) ==> Grown(a, at))
      ensures forall x: nat :: Value(x) == old(Value(x))
    {
      hide *;
      ButParts(0);
      ValuesAre();
      WebParts(nodes, at, height, root, 0);
      FitsIn(nodes, at, height, Pos(height, 0));
      NoTop(nodes, at, height, root);
      ghost var nodes0, at0 := nodes, at;
      var r := AllocNode(NULL, 0);
      nodes := nodes[r := nodes[r].(entries := nodes[r].entries[0 := root])];
      nodes := nodes[root := nodes[root].(parent := r)];
      RootEntries(nodes0, nodes, r, root);
      GrowRoot(nodes0, nodes, at, height, root, 0, r);
      ghost var top := Pos(height + 1, 0);
      ListKept(at, leaves, top, r);
      if threaded { ChainKept(nodes0, nodes, at, leaves, top, r); }
      at := at[top := r];
      root := r;
      height := height + 1;
      ButIs(0);
      ValuesAre();
      GrownMore(at0, top, r);
    }

    /** Bind a key; a null value unbinds it and is reported as a failure. */
    method Insert(key: nat, value: int) returns (errval: int)
      requires Valid() && key < Pow8(21)
      modifies this`root, this`height, this`nodes, this`brk, this`at, this`leaves
      ensures Valid() && HasPath(key) && Grown(old(at), at)
      ensures forall x: nat :: Value(x) == if x == key then value else old(Value(x))
      ensures errval == if value == 0 then -1 else 0
      ensures height <= if old(height) > 21 then old(height) else 21
      ensures if key < Pow8(old(height)) then height == old(height)
              else old(height) < height && Pow8(height - 1) <= key < Pow8(height)
    {
      hide *;
      ValidIsBut();
      ButParts(0);
      WebParts(nodes, at, height, root, 0);
      var h := height;
      ghost var at0 := at;
      if key > Pow8(h) - 1 {
        h := HeightFor(key, h);
      }
      GrownSelf(at);
      PrefixZero(key, h);
      if h > height {
        IncreaseHeight(h);
        ValidIsBut();
        ButParts(0);
        WebParts(nodes, at, height, root, 0);
      }
      ghost var at1 := at;
      PathComplete(nodes, at, height, root, 0, key);
      ButIs(key);
      PrefixZero(key, height);
      errval := RecursiveAlloc(root, key, value, h, Pos(h, 0), key);
      HasPathIs(key);
      ButParts(key);
      PathComplete(nodes, at, height, root, key, 0);
      ButIs(0);
      ValidIsBut();
      GrownTwice(at0, at1, at);
    }

    // -------------------------------------------------------------- reading

    /** The leaf for a key. */
    method FindLeaf(key: nat) returns (leaf: Ptr, idx: nat)
      requires Valid() && HasPath(key) && key < Pow8(height)
      ensures Pos(1, key / 8) in at && leaf == at[Pos(1, key / 8)] && leaf in nodes && |nodes[leaf].entries| == 8
        && idx == key % 8
    {
      hide *;
      ValidIsBut();
      ButParts(0);
      WebParts(nodes, at, height, root, 0);
      HasPathIs(key);
      PrefixZero(key, height);
      leaf := root;
      var h, k := height, key;
      while h > 1
        invariant 1 <= h <= height && Pos(h, Prefix(key, h)) in at && leaf == at[Pos(h, Prefix(key, h))]
          && k == key % Pow8(h)
      {
        PrefixStep(key, h - 1);
        ghost var pos := Pos(h, Prefix(key, h));
        FitsParts(nodes, at, height, pos);
        LeafOfKey(key);
        SamePrefixes(key, h);
        SamePrefixes(key, h - 1);
        KidTowards(nodes, at, height, root, 0, pos, key / 8);
        leaf := nodes[leaf].entries[k / Pow8(h - 1)];
        k := k % Pow8(h - 1);
        h := h - 1;
      }
      FitsParts(nodes, at, height, Pos(1, Prefix(key, 1)));
      LeafIndex(key, Prefix(key, 1), k / Pow8(0));
      idx := k / Pow8(0);
    }

    method Lookup(key: nat) returns (r: int)
      requires Valid() && HasPath(key) && key < Pow8(height)
      ensures r == Value(key)
    {
      var leaf, idx := FindLeaf(key);
      r := nodes[leaf].entries[idx];
    }

    /** The descent that starts a full scan.  Its loop counts down from 0, so it works only because
        entry 0 is always present. */
    method SearchToLeftmostLeaf(levelPtr: Ptr, level: nat) returns (leaf: Ptr)
      requires Valid() && Pos(level, 0) in at && levelPtr == at[Pos(level, 0)] && level >= 1
      ensures Pos(1, 0) in at && leaf == at[Pos(1, 0)]
      decreases level
    {
      hide *;
      ValidIsBut();
      ButParts(0);
      WebParts(nodes, at, height, root, 0);
      FitsParts(nodes, at, height, Pos(level, 0));
      leaf := levelPtr;
      if level != 1 {
        var i: int := 0;
        while 0 <= i < 8
          invariant -1 <= i <= 0 && (i < 0 ==> nodes[levelPtr].entries[0] == NULL)
          decreases i + 1
        {
          if nodes[levelPtr].entries[i] != NULL {
            KidIs(at, Pos(level, 0), 0);
            leaf := SearchToLeftmostLeaf(nodes[levelPtr].entries[i], level - 1);
            return;
          }
          i := i - 1;
        }
        KidIs(at, Pos(level, 0), 0);
        FitsIn(nodes, at, height, Pos(level - 1, 0));
        assert false;
      } else {
        leaf := levelPtr;
      }
    }

    /** The first leaf below a branch that is complete. */
    method SearchToNextLeaf(branch: Ptr, level: nat, ghost pos: Pos, ghost path: nat) returns (leaf: Ptr, ghost q: nat)
      requires Web(nodes, at, height, root, path) && pos in at && at[pos] == branch && pos.level == level >= 1
      requires level > 1 ==> pos.prefix != Prefix(path, level)
      ensures Pos(1, q) in at && leaf == at[Pos(1, q)] && Prefix(8 * q, level) == pos.prefix
      ensures FirstUnder(at, level, pos.prefix, q)
      decreases level
    {
      hide *;
      WebParts(nodes, at, height, root, path);
      FitsParts(nodes, at, height, pos);
      if level != 1 {
        var i := 0;
        while i < 8
          invariant 0 <= i <= 8 && (forall j :: 0 <= j < i ==> Kid(at, pos, j) == NULL)
        {
          if nodes[branch].entries[i] != NULL {
            KidIs(at, pos, i);
            ghost var c := Pos(level - 1, 8 * pos.prefix + i);
            NotOnPath(path, pos, i);
            leaf, q := SearchToNextLeaf(nodes[branch].entries[i], level - 1, c, path);
            PrefixStep(8 * q, level - 1);
            FirstOfKid(nodes, at, height, root, path, pos, i, q);
            return;
          }
          i := i + 1;
        }
        OnPathIs(path, pos);
        NoKid(at, pos);
      } else {
        leaf, q := branch, pos.prefix;
        OneLeaf(pos.prefix);
        FirstUnderIs(at, level, pos.prefix, q);
      }
    }

    /** The first leaf behind entry `index` of a node, climbing if there is none beside it; null at the end. */
    method FindNextLeaf(parent: Ptr, index: nat, level: nat, ghost pos: Pos, ghost path: nat)
        returns (leaf: Ptr, ghost q: nat)
      requires Web(nodes, at, height, root, path) && pos in at && at[pos] == parent && pos.level == level >= 2
        && index < 8
      requires 8 * pos.prefix + index == Prefix(path, level - 1)
      ensures leaf == NULL ==> NoneAfter(at, level - 1, 8 * pos.prefix + index)
      ensures leaf != NULL ==>
        Pos(1, q) in at && leaf == at[Pos(1, q)] && Prefix(8 * q, level - 1) > 8 * pos.prefix + index
      ensures leaf != NULL ==> FirstAfter(at, level - 1, 8 * pos.prefix + index, q)
      decreases height - level
    {
      hide *;
      q := 0;
      WebParts(nodes, at, height, root, path);
      FitsParts(nodes, at, height, pos);
      var i := index + 1;
      while i < 8
        invariant index < i <= 8 && (forall j :: index < j < i ==> Kid(at, pos, j) == NULL)
      {
        if nodes[parent].entries[i] != NULL {
          KidIs(at, pos, i);
          ghost var c := Pos(level - 1, 8 * pos.prefix + i);
          leaf, q := SearchToNextLeaf(nodes[parent].entries[i], level - 1, c, path);
          FirstBesideKid(nodes, at, height, root, path, pos, i, index, q);
          FitsIn(nodes, at, height, Pos(1, q));
          return;
        }
        i := i + 1;
      }
      NoneBehind(nodes, at, height, root, path, pos, index);
      if height > level {
        PrefixStep(path, level - 1);
        leaf, q := FindNextLeaf(nodes[parent].parent, nodes[parent].index, level + 1, Pos(level + 1, pos.prefix / 8),
            path);
        AfterIs(at, level, pos.prefix, q);
        AfterIs(at, level - 1, 8 * pos.prefix + index, q);
      } else {
        leaf := NULL;
        NothingLeft(nodes, at, height, root, path);
        AfterIs(at, level - 1, 8 * pos.prefix + index, q);
      }
    }
  }

  /** No leaf with this prefix lies before q. */
  ghost predicate FirstUnder(at: Places, level: nat, prefix: nat, q: nat) {
    forall x: nat :: Pos(1, x) in at && Prefix(8 * x, level) == prefix ==> q <= x
  }

  /** No leaf with a larger prefix than c lies before q. */
  ghost predicate FirstAfter(at: Places, level: nat, c: nat, q: nat) {
    forall x: nat :: Pos(1, x) in at && Prefix(8 * x, level) > c ==> q <= x
  }

  ghost predicate NoneAfter(at: Places, level: nat, c: nat) {
    forall x: nat :: Pos(1, x) in at ==> Prefix(8 * x, level) <= c
  }

  lemma FirstUnderParts(at: Places, level: nat, prefix: nat, q: nat)
    requires FirstUnder(at, level, prefix, q)
    ensures forall x: nat :: Pos(1, x) in at && Prefix(8 * x, level) == prefix ==> q <= x
  {
    hide Prefix;
  }

  lemma FirstUnderIs(at: Places, level: nat, prefix: nat, q: nat)
    requires forall x: nat :: Pos(1, x) in at && Prefix(8 * x, level) == prefix ==> q <= x
    ensures FirstUnder(at, level, prefix, q)
  {
    hide Prefix;
  }

  lemma AfterIs(at: Places, level: nat, c: nat, q: nat)
    ensures FirstAfter(at, level, c, q) <==> forall x: nat :: Pos(1, x) in at && Prefix(8 * x, level) > c ==> q <= x
    ensures NoneAfter(at, level, c) <==> forall x: nat :: Pos(1, x) in at ==> Prefix(8 * x, level) <= c
  {
    hide Prefix;
  }

  lemma LeafOfKey(key: nat)
    ensures Prefix(8 * (key / 8), 1) == key / 8
  {
    LeafPrefix(key / 8);
  }

  /** Below kid i, all earlier kids being absent, is the first leaf. */
  lemma FirstOfKid(nodes: Nodes, at: Places, height: nat, root: Ptr, path: nat, pos: Pos, i: nat, q: nat)
    requires Web(nodes, at, height, root, path) && pos in at && 1 < pos.level <= height && i < 8
    requires Prefix(8 * q, pos.level - 1) == 8 * pos.prefix + i
    requires forall j :: 0 <= j < i ==> Kid(at, pos, j) == NULL
    requires FirstUnder(at, pos.level - 1, 8 * pos.prefix + i, q)
    ensures FirstUnder(at, pos.level, pos.prefix, q)
  {
    hide *;
    FirstUnderParts(at, pos.level - 1, 8 * pos.prefix + i, q);
    forall x: nat | Pos(1, x) in at && Prefix(8 * x, pos.level) == pos.prefix ensures q <= x {
      KidTowards(nodes, at, height, root, path, pos, x);
      var d := Prefix(8 * x, pos.level - 1);
      if d != 8 * pos.prefix + i && x < q { PrefixOrder(8 * x, 8 * q, pos.level - 1); }
    }
    FirstUnderIs(at, pos.level, pos.prefix, q);
  }

  /** Below kid i > index, the kids between being absent, is the first leaf behind index. */
  lemma FirstBesideKid(nodes: Nodes, at: Places, height: nat, root: Ptr, path: nat, pos: Pos, i: nat, index: nat,
                       q: nat)
    requires Web(nodes, at, height, root, path) && pos in at && 1 < pos.level <= height && index < i < 8
    requires Prefix(8 * q, pos.level - 1) == 8 * pos.prefix + i
    requires forall j :: index < j < i ==> Kid(at, pos, j) == NULL
    requires FirstUnder(at, pos.level - 1, 8 * pos.prefix + i, q)
    ensures FirstAfter(at, pos.level - 1, 8 * pos.prefix + index, q)
  {
    hide *;
    FirstUnderParts(at, pos.level - 1, 8 * pos.prefix + i, q);
    forall x: nat | Pos(1, x) in at && Prefix(8 * x, pos.level - 1) > 8 * pos.prefix + index ensures q <= x {
      var d := Prefix(8 * x, pos.level - 1);
      if d != 8 * pos.prefix + i && x < q {
        PrefixOrder(8 * x, 8 * q, pos.level - 1);
        PrefixStep(8 * x, pos.level - 1);
        KidTowards(nodes, at, height, root, path, pos, x);
      }
    }
    AfterIs(at, pos.level - 1, 8 * pos.prefix + index, q);
  }

  /** Without kids behind index, the leaves behind index are those behind the node. */
  lemma NoneBehind(nodes: Nodes, at: Places, height: nat, root: Ptr, path: nat, pos: Pos, index: nat)
    requires Web(nodes, at, height, root, path) && pos in at && 1 < pos.level <= height && index < 8
    requires forall j :: index < j < 8 ==> Kid(at, pos, j) == NULL
    ensures forall x: nat :: Pos(1, x) in at ==> (Prefix(8 * x, pos.level - 1) > 8 * pos.prefix + index
      <==> Prefix(8 * x, pos.level) > pos.prefix)
  {
    hide *;
    forall x: nat | Pos(1, x) in at
      ensures Prefix(8 * x, pos.level - 1) > 8 * pos.prefix + index <==> Prefix(8 * x, pos.level) > pos.prefix
    {
      PrefixStep(8 * x, pos.level - 1);
      if Prefix(8 * x, pos.level) == pos.prefix { KidTowards(nodes, at, height, root, path, pos, x); }
    }
  }

  /** Nothing lies beyond the root. */
  lemma NothingLeft(nodes: Nodes, at: Places, height: nat, root: Ptr, path: nat)
    requires Web(nodes, at, height, root, path)
    ensures forall x: nat :: Pos(1, x) in at ==> Prefix(8 * x, height) == 0
  {
    hide *;
    WebParts(nodes, at, height, root, path);
    forall x: nat | Pos(1, x) in at ensures Prefix(8 * x, height) == 0 {
      LeafPrefix(x);
      Ancestor(nodes, at, height, root, path, 8 * x, 1, height);
      FitsParts(nodes, at, height, Pos(height, Prefix(8 * x, height)));
    }
  }

  /** The least height from h on that has room for the key. */
  method HeightFor(key: nat, h: nat) returns (height: nat)
    requires key >= Pow8(h) && key < Pow8(21)
    ensures h < height <= 21 && Pow8(height - 1) <= key < Pow8(height)
  {
    hide *;
    height := h;
    var total := key / Pow8(h);
    TotalPositive(key, h);
    HeightBelow(key, h);
    while total > 0
      invariant h <= height <= 21 && total == Prefix(key, height) && (height == h ==> total > 0)
      invariant height > h ==> Prefix(key, height - 1) > 0
      decreases total
    {
      PrefixStep(key, height);
      HeightLeft(key, height);
      total := total / 8;
      height := height + 1;
    }
    PrefixZero(key, height);
    PrefixZero(key, height - 1);
  }

  lemma TotalPositive(key: nat, h: nat)
    requires key >= Pow8(h)
    ensures key / Pow8(h) == Prefix(key, h) > 0
  {
    PrefixZero(key, h);
  }

  lemma HeightBelow(key: nat, h: nat)
    requires Pow8(h) <= key < Pow8(21)
    ensures h < 21
  {
    if h >= 21 { Pow8Order(21, h); }
  }

  lemma HeightLeft(key: nat, height: nat)
    requires Prefix(key, height) > 0 && key < Pow8(21)
    ensures height < 21
  {
    PrefixZero(key, height);
    HeightBelow(key, height);
  }

  lemma NullIsZero()
    ensures NULL == 0
  {
  }

  lemma LeafIndex(key: nat, prefix: nat, index: nat)
    requires prefix == Prefix(key, 1) && index == (key % Pow8(1)) / Pow8(0)
    ensures index == key % 8 < 8 && prefix == key / 8 && key == 8 * prefix + index
  {
    assert Pow8(0) == 1 && Pow8(1) == 8 * Pow8(0);
  }

  lemma SiblingsKept(nodes: Nodes, nodes': Nodes, at: Places, leaves: seq<nat>)
    requires Chained(nodes, at, leaves)
    requires forall x :: x in nodes ==> x in nodes' && nodes'[x].sibling == nodes[x].sibling
    ensures Chained(nodes', at, leaves)
  {
    hide Chained;
    forall i: nat | i < |leaves| ensures ChainedAt(nodes', at, leaves, i) {
      ChainParts(nodes, at, leaves, i);
      assert ChainedAt(nodes, at, leaves, i);
      var a := at[Pos(1, leaves[i])];
      assert a in nodes;
      assert a in nodes';
    }
    ChainIs(nodes', at, leaves);
  }

  lemma GrownAt(at: Places, at': Places, pos: Pos)
    requires Grown(at, at') && pos in at
    ensures pos in at' && at'[pos] == at[pos]
  {
  }

  lemma GrownTwice(at: Places, at': Places, at'': Places)
    requires Grown(at, at') && Grown(at', at'')
    ensures Grown(at, at'')
  {
  }

  lemma GrownMore(at: Places, c: Pos, a: Ptr)
    requires c !in at
    ensures forall x :: Grown(x, at) ==> Grown(x, at[c := a])
  {
  }

  lemma NoTop(nodes: Nodes, at: Places, height: nat, root: Ptr)
    requires Web(nodes, at, height, root, 0)
    ensures Pos(height + 1, 0) !in at && Pos(1, 0) in at
  {
    hide HasKid, OnPath;
    assert Pos(height + 1, 0) in at ==> NodeFits(nodes, at, height, Pos(height + 1, 0));
  }

  lemma RootEntries(nodes0: Nodes, nodes: Nodes, r: Ptr, root: Ptr)
    requires r !in nodes0 && root in nodes0 && r in nodes && r > 0 && |nodes[r].entries| == 8
    requires exists n: Node :: Zeroed(n) && nodes[r] == n.(entries := n.entries[0 := root])
    requires nodes == nodes0[r := nodes[r]][root := nodes0[root].(parent := r)]
    ensures nodes[r].entries[0] == root && forall j :: 1 <= j < 8 ==> nodes[r].entries[j] == NULL
    ensures r != NULL && forall x :: x in nodes0 ==> x in nodes && nodes[x].sibling == nodes0[x].sibling
  {
  }

  ghost predicate Zeroed(n: Node) {
    |n.entries| == 8 && forall j :: 0 <= j < 8 ==> n.entries[j] == 0
  }

  /** Nodes stay at their places. */
  ghost predicate Grown(at: Places, at': Places) {
    forall pos :: pos in at ==> pos in at' && at'[pos] == at[pos]
  }

  lemma GrownIs(at: Places, c: Pos, a: Ptr)
    requires c !in at
    ensures Grown(at, at[c := a])
  {
  }

  lemma GrownSelf(at: Places)
    ensures Grown(at, at)
  {
  }

  /** A new leaf is not the first one. */
  lemma SpineLeaf(nodes: Nodes, at: Places, height: nat, root: Ptr, path: nat, c: Pos)
    requires Web(nodes, at, height, root, path) && c !in at && 1 <= c.level <= height
    ensures c.prefix > 0
  {
    hide NodeFits, HasKid, OnPath;
  }

  lemma HungPlain(nodes: Nodes, nodes1: Nodes, nodes': Nodes, at: Places, pos: Pos, i: nat, a: Ptr)
    requires pos in at && at[pos] in nodes && |nodes[at[pos]].entries| == 8 && i < 8 && a !in nodes && a > 0
    requires a in nodes1 && nodes1 == nodes[a := nodes1[a]] && Zeroed(nodes1[a]) && nodes1[a].parent == at[pos]
      && nodes1[a].index == i
    requires nodes' == nodes1[at[pos] := nodes1[at[pos]].(entries := nodes1[at[pos]].entries[i := a])]
    ensures Hung(nodes, nodes', at, pos, i, a)
  {
  }

  lemma HungLeaf(nodes: Nodes, nodes1: Nodes, nodes': Nodes, at: Places, pos: Pos, i: nat, a: Ptr, p: Ptr)
    requires pos in at && at[pos] in nodes && |nodes[at[pos]].entries| == 8 && i < 8 && a !in nodes && a > 0
      && p in nodes
    requires a in nodes1 && nodes1 == nodes[a := nodes1[a]][p := nodes[p].(sibling := a)]
    requires Zeroed(nodes1[a]) && nodes1[a].parent == at[pos] && nodes1[a].index == i
    requires nodes' == nodes1[at[pos] := nodes1[at[pos]].(entries := nodes1[at[pos]].entries[i := a])]
    ensures Hung(nodes, nodes', at, pos, i, a)
  {
  }

  /** The list of leaves after node a has been hung at c. */
  lemma ListAfter(threaded: bool, nodes: Nodes, nodes': Nodes, at: Places, leaves: seq<nat>, c: Pos, a: Ptr,
                  prev: nat) returns (leaves': seq<nat>)
    requires Listed(at, leaves) && c !in at && (threaded ==> Chained(nodes, at, leaves))
    requires (forall x, y :: x in at && y in at && at[x] == at[y] ==> x == y) && a !in nodes
      && nodes'.Keys == nodes.Keys + {a}
    requires threaded && c.level == 1 ==>
      Pos(1, prev) in at && at[Pos(1, prev)] in nodes && prev < c.prefix && LastBefore(at, 1, c.prefix, prev)
    requires threaded && c.level == 1 ==>
      nodes'[a].sibling == nodes[at[Pos(1, prev)]].sibling && nodes'[at[Pos(1, prev)]].sibling == a
    requires forall x :: x in nodes && !(threaded && c.level == 1 && Pos(1, prev) in at && x == at[Pos(1, prev)])
                         ==> nodes'[x].sibling == nodes[x].sibling
    ensures Listed(at[c := a], leaves') && (threaded ==> Chained(nodes', at[c := a], leaves'))
  {
    hide *;
    if c.level == 1 {
      assert c == Pos(1, c.prefix);
      RankFits(at, leaves, c.prefix);
      var k := Rank(leaves, c.prefix);
      leaves' := leaves[..k] + [c.prefix] + leaves[k..];
      ListGrows(at, leaves, k, c.prefix, a);
      if threaded {
        BehindPrev(at, leaves, c.prefix, prev);
        NextOfPrev(nodes, at, leaves, k, c.prefix);
        ChainGrows(nodes, nodes', at, leaves, k, c.prefix, a);
      }
    } else {
      leaves' := leaves;
      ListKept(at, leaves, c, a);
      if threaded { ChainKept(nodes, nodes', at, leaves, c, a); }
    }
  }

  lemma BehindPrev(at: Places, leaves: seq<nat>, q: nat, prev: nat)
    requires Listed(at, leaves) && Pos(1, q) !in at && Pos(1, prev) in at && prev < q && LastBefore(at, 1, q, prev)
    ensures var k := Rank(leaves, q); 0 < k && leaves[k - 1] == prev && (k < |leaves| ==> q < leaves[k])
  {
    hide *;
    LastBeforeParts(at, 1, q, prev);
    OneLeaf(q);
    RankIsBehind(at, leaves, q, prev);
  }

  lemma NextOfPrev(nodes: Nodes, at: Places, leaves: seq<nat>, k: nat, q: nat)
    requires Chained(nodes, at, leaves) && 0 < k <= |leaves|
    ensures Pos(1, leaves[k - 1]) in at && at[Pos(1, leaves[k - 1])] in nodes
      && nodes[at[Pos(1, leaves[k - 1])]].sibling == NextIn(at, leaves, k - 1)
  {
    hide NextIn;
  }

  /** No leaf with this prefix lies beyond q. */
  ghost predicate LastUnder(at: Places, level: nat, prefix: nat, q: nat) {
    forall x: nat :: Pos(1, x) in at && Prefix(8 * x, level) == prefix ==> x <= q
  }

  /** No leaf with a smaller prefix than c lies beyond q. */
  ghost predicate LastBefore(at: Places, level: nat, c: nat, q: nat) {
    forall x: nat :: Pos(1, x) in at && Prefix(8 * x, level) < c ==> x <= q
  }

  lemma LastUnderParts(at: Places, level: nat, prefix: nat, q: nat)
    requires LastUnder(at, level, prefix, q)
    ensures forall x: nat :: Pos(1, x) in at && Prefix(8 * x, level) == prefix ==> x <= q
  {
    hide Prefix;
  }

  lemma LastUnderIs(at: Places, level: nat, prefix: nat, q: nat)
    requires forall x: nat :: Pos(1, x) in at && Prefix(8 * x, level) == prefix ==> x <= q
    ensures LastUnder(at, level, prefix, q)
  {
    hide Prefix;
  }

  lemma LastBeforeParts(at: Places, level: nat, c: nat, q: nat)
    requires LastBefore(at, level, c, q)
    ensures forall x: nat :: Pos(1, x) in at && Prefix(8 * x, level) < c ==> x <= q
  {
    hide Prefix;
  }

  lemma LastBeforeIs(at: Places, level: nat, c: nat, q: nat)
    requires forall x: nat :: Pos(1, x) in at && Prefix(8 * x, level) < c ==> x <= q
    ensures LastBefore(at, level, c, q)
  {
    hide Prefix;
  }

  /** Below kid i, all later kids being absent, is the last leaf. */
  lemma LastOfKid(nodes: Nodes, at: Places, height: nat, root: Ptr, path: nat, pos: Pos, i: nat, q: nat)
    requires Web(nodes, at, height, root, path) && pos in at && 1 < pos.level <= height && i < 8
    requires Prefix(8 * q, pos.level - 1) == 8 * pos.prefix + i
    requires forall j :: i < j < 8 ==> Kid(at, pos, j) == NULL
    requires LastUnder(at, pos.level - 1, 8 * pos.prefix + i, q)
    ensures LastUnder(at, pos.level, pos.prefix, q)
  {
    hide *;
    LastUnderParts(at, pos.level - 1, 8 * pos.prefix + i, q);
    forall x: nat | Pos(1, x) in at && Prefix(8 * x, pos.level) == pos.prefix ensures x <= q {
      KidTowards(nodes, at, height, root, path, pos, x);
      var d := Prefix(8 * x, pos.level - 1);
      if d != 8 * pos.prefix + i && x > q { PrefixOrder(8 * q, 8 * x, pos.level - 1); }
    }
    LastUnderIs(at, pos.level, pos.prefix, q);
  }

  lemma NoKid(at: Places, pos: Pos)
    requires forall j :: 0 <= j < 8 ==> Kid(at, pos, j) == NULL
    ensures !HasKid(at, pos)
  {
  }

  lemma OneLeaf(q: nat)
    ensures forall x: nat :: Prefix(8 * x, 1) == x
  {
    forall x: nat ensures Prefix(8 * x, 1) == x { LeafPrefix(x); }
  }

  /** Below kid i < index, the kids between being absent, is the last leaf before index. */
  lemma LastBesideKid(nodes: Nodes, at: Places, height: nat, root: Ptr, path: nat, pos: Pos, i: nat, index: nat, q: nat)
    requires Web(nodes, at, height, root, path) && pos in at && 1 < pos.level <= height && i < index < 8
    requires Prefix(8 * q, pos.level - 1) == 8 * pos.prefix + i
    requires forall j :: i < j < index ==> Kid(at, pos, j) == NULL
    requires LastUnder(at, pos.level - 1, 8 * pos.prefix + i, q)
    ensures LastBefore(at, pos.level - 1, 8 * pos.prefix + index, q)
  {
    hide *;
    LastUnderParts(at, pos.level - 1, 8 * pos.prefix + i, q);
    forall x: nat | Pos(1, x) in at && Prefix(8 * x, pos.level - 1) < 8 * pos.prefix + index ensures x <= q {
      var d := Prefix(8 * x, pos.level - 1);
      if d != 8 * pos.prefix + i && x > q {
        PrefixOrder(8 * q, 8 * x, pos.level - 1);
        PrefixStep(8 * x, pos.level - 1);
        KidTowards(nodes, at, height, root, path, pos, x);
      }
    }
    LastBeforeIs(at, pos.level - 1, 8 * pos.prefix + index, q);
  }

  /** Without kids before index, the leaves before index are those before the node. */
  lemma NoneBeside(nodes: Nodes, at: Places, height: nat, root: Ptr, path: nat, pos: Pos, index: nat)
    requires Web(nodes, at, height, root, path) && pos in at && 1 < pos.level <= height && index < 8
    requires forall j :: 0 <= j < index ==> Kid(at, pos, j) == NULL
    requires 8 * pos.prefix + index > 0
    ensures forall x: nat :: Pos(1, x) in at ==> (Prefix(8 * x, pos.level - 1) < 8 * pos.prefix + index
      <==> Prefix(8 * x, pos.level) < pos.prefix)
    ensures pos.prefix > 0 && pos.level < height
  {
    hide *;
    WebParts(nodes, at, height, root, path);
    forall x: nat | Pos(1, x) in at
      ensures Prefix(8 * x, pos.level - 1) < 8 * pos.prefix + index <==> Prefix(8 * x, pos.level) < pos.prefix
    {
      PrefixStep(8 * x, pos.level - 1);
      if Prefix(8 * x, pos.level) == pos.prefix { KidTowards(nodes, at, height, root, path, pos, x); }
    }
    FitsParts(nodes, at, height, pos);
    if pos.prefix == 0 {
      KidIs(at, pos, 0);
      FitsIn(nodes, at, height, Pos(pos.level - 1, 0));
    }
  }

  lemma FirstTree(n: Node)
    requires Zeroed(n) && n.sibling == NULL && n.index == 0
    ensures Web(map[1 := n], map[Pos(1, 0) := 1], 1, 1, 0) && Listed(map[Pos(1, 0) := 1], [0])
      && Chained(map[1 := n], map[Pos(1, 0) := 1], [0])
    ensures forall key :: Bound(map[1 := n], map[Pos(1, 0) := 1], key) == 0
  {
  }
}
