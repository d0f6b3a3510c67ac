/** The wB+-tree: lookups, slot-array inserts and deletes, and logged splits that climb parent pointers. */
module WbTree {
  import opened SortedPairs
  import opened KeyRanges
  import opened LeafStarts
  import opened WbNode
  import opened WbPlaces
  import opened WbCrash
  import opened WbShape
  import W = NodeWeb

  /** Nodes above a level are as the operation found them. */
  ghost predicate Intact(nodes: Nodes, base: Nodes, info: Info, level: nat) {
    forall n :: n in nodes && n in info && info[n].level > level ==> n in base && nodes[n] == base[n]
  }

  /** Nodes up to a level keep everything but their parent. */
  ghost predicate KeptBelow(nodes: Nodes, nodes': Nodes, info: Info, info': Info, level: nat) {
    forall n :: n in nodes && n in info && info[n].level <= level ==>
      n in nodes' && n in info' && info'[n] == info[n] && nodes'[n] == nodes[n].(parent := nodes'[n].parent)
  }

  class Tree {
    var root: Ptr
    var nodes: Nodes
    var brk: Ptr
    /** The keys a node covers, and the map the leaves hold. */
    ghost var info: Info
    ghost var abs: map<int, int>
    /** The tree when the operation began, what has happened to memory since, and the words not flushed. */
    ghost var base: Nodes
    ghost var baseRoot: Ptr
    ghost var trace: Trace
    ghost var dirty: set<Loc>
    /** The operation logs what it overwrites. */
    ghost var logged: bool

    ghost predicate MemOk()
      reads this`nodes, this`brk
    {
      brk > 0 && forall n :: n in nodes ==> 0 < n < brk
    }

    ghost predicate Tracked()
      reads this`nodes, this`brk, this`base, this`baseRoot, this`trace, this`dirty, this`logged
    {
      MemOk() && Traced(base, baseRoot, trace, nodes, dirty, logged)
    }

    ghost predicate Valid()
      reads this
    {
      MemOk() && Shape(nodes, info, map[], root) && Agree(nodes, info, abs)
    }

    /** `initTree`: one leaf without entries. */
    constructor ()
      ensures Valid() && abs == map[] && info == map[root := Range(0, TOP, 0)] && root in nodes
        && LiveOf(nodes, root) == []
    {
      var n := JunkNode();
      root, brk := 1, 2;
      nodes := map[1 := n];
      info, abs := map[1 := Range(0, TOP, 0)], map[];
      new;
      FirstTree(nodes[1]);
    }

    lemma TrackedFacts()
      requires Tracked()
      ensures MemOk() && Traced(base, baseRoot, trace, nodes, dirty, logged)
      ensures brk > 0 && forall n :: n in nodes ==> 0 < n < brk
      ensures forall n :: n in base ==> n in nodes
    {
    }

    // -------------------------------------------------------------- single accesses

    /** A store to a word that has been recorded, or need not be. */
    ghost predicate MayStore(loc: Loc)
      reads this`base, this`baseRoot, this`trace, this`logged
    {
      logged && IsLive(base, baseRoot, loc) ==> Recorded(trace, loc)
    }

    /** An event has changed memory; the books follow. */
    ghost method Happened(e: Event, was: Nodes)
      requires Traced(base, baseRoot, trace, was, dirty, logged) && Effect(e, was, nodes) && MemOk()
      requires e.Store? ==> MayStore(e.loc)
      modifies this`trace, this`dirty
      ensures Tracked() && trace == old(trace) + [e] && dirty == DirtyAfter(old(dirty), e)
      ensures forall loc :: Recorded(old(trace), loc) ==> Recorded(trace, loc)
      ensures e.Record? ==> forall loc :: loc in e.vals ==> Recorded(trace, loc)
    {
      hide Traced, Recorded, IsLive, Effect;
      TracedMore(base, baseRoot, trace, was, dirty, logged, e, nodes);
      trace, dirty := trace + [e], DirtyAfter(dirty, e);
    }

    method StoreSlot(n: Ptr, slot: seq<int>)
      requires Tracked() && n in nodes && MayStore(SlotOf(n))
      modifies this`nodes, this`trace, this`dirty
      ensures Tracked() && nodes == old(nodes)[n := old(nodes)[n].(slot := slot)]
      ensures trace == old(trace) + [Store(SlotOf(n), Slots(slot))] && dirty == old(dirty) + {SlotOf(n)}
      ensures forall loc :: Recorded(old(trace), loc) ==> Recorded(trace, loc)
    {
      ghost var was := nodes;
      TrackedFacts();
      nodes := nodes[n := nodes[n].(slot := slot)];
      Happened(Store(SlotOf(n), Slots(slot)), was);
    }

    method StoreKey(n: Ptr, i: int, key: int)
      requires Tracked() && n in nodes && MayStore(KeyAt(n, i)) && 0 <= i < |nodes[n].entries| == 7
      modifies this`nodes, this`trace, this`dirty
      ensures Tracked() && nodes
        == old(nodes)[n := old(nodes)[n].(entries := old(nodes)[n].entries[i := old(nodes)[n].entries[i].(key := key)])]
      ensures trace == old(trace) + [Store(KeyAt(n, i), Word(key))] && dirty == old(dirty) + {KeyAt(n, i)}
      ensures forall loc :: Recorded(old(trace), loc) ==> Recorded(trace, loc)
    {
      ghost var was := nodes;
      TrackedFacts();
      nodes := nodes[n := nodes[n].(entries := nodes[n].entries[i := nodes[n].entries[i].(key := key)])];
      Happened(Store(KeyAt(n, i), Word(key)), was);
    }

    method StoreTid(n: Ptr, i: int, tid: int)
      requires Tracked() && n in nodes && MayStore(TidAt(n, i)) && 0 <= i < |nodes[n].entries| == 7
      modifies this`nodes, this`trace, this`dirty
      ensures Tracked() && nodes
        == old(nodes)[n := old(nodes)[n].(entries := old(nodes)[n].entries[i := old(nodes)[n].entries[i].(tid := tid)])]
      ensures trace == old(trace) + [Store(TidAt(n, i), Word(tid))] && dirty == old(dirty) + {TidAt(n, i)}
      ensures forall loc :: Recorded(old(trace), loc) ==> Recorded(trace, loc)
    {
      ghost var was := nodes;
      TrackedFacts();
      nodes := nodes[n := nodes[n].(entries := nodes[n].entries[i := nodes[n].entries[i].(tid := tid)])];
      Happened(Store(TidAt(n, i), Word(tid)), was);
    }

    method StoreLeftmost(n: Ptr, p: Ptr)
      requires Tracked() && n in nodes && MayStore(LeftOf(n))
      modifies this`nodes, this`trace, this`dirty
      ensures Tracked() && nodes == old(nodes)[n := old(nodes)[n].(leftmost := p)]
      ensures trace == old(trace) + [Store(LeftOf(n), Word(p))] && dirty == old(dirty) + {LeftOf(n)}
      ensures forall loc :: Recorded(old(trace), loc) ==> Recorded(trace, loc)
    {
      ghost var was := nodes;
      TrackedFacts();
      nodes := nodes[n := nodes[n].(leftmost := p)];
      Happened(Store(LeftOf(n), Word(p)), was);
    }

    method StoreParent(n: Ptr, p: Ptr)
      requires Tracked() && n in nodes && MayStore(ParentOf(n))
      modifies this`nodes, this`trace, this`dirty
      ensures Tracked() && nodes == old(nodes)[n := old(nodes)[n].(parent := p)]
      ensures trace == old(trace) + [Store(ParentOf(n), Word(p))] && dirty == old(dirty) + {ParentOf(n)}
      ensures forall loc :: Recorded(old(trace), loc) ==> Recorded(trace, loc)
    {
      ghost var was := nodes;
      TrackedFacts();
      nodes := nodes[n := nodes[n].(parent := p)];
      Happened(Store(ParentOf(n), Word(p)), was);
    }

    method StoreFlag(n: Ptr, isLeaf: bool)
      requires Tracked() && n in nodes && MayStore(FlagOf(n))
      modifies this`nodes, this`trace, this`dirty
      ensures Tracked() && nodes == old(nodes)[n := old(nodes)[n].(isLeaf := isLeaf)]
      ensures trace == old(trace) + [Store(FlagOf(n), Flag(isLeaf))] && dirty == old(dirty) + {FlagOf(n)}
      ensures forall loc :: Recorded(old(trace), loc) ==> Recorded(trace, loc)
    {
      ghost var was := nodes;
      TrackedFacts();
      nodes := nodes[n := nodes[n].(isLeaf := isLeaf)];
      Happened(Store(FlagOf(n), Flag(isLeaf)), was);
    }

    lemma MemOkIs()
      requires brk > 0 && forall n :: n in nodes ==> 0 < n < brk
      ensures MemOk()
    {
    }

    /** `flush_buffer`: the words become persistent. */
    ghost method FlushWords(locs: set<Loc>)
      requires Tracked()
      modifies this`trace, this`dirty
      ensures Tracked() && trace == old(trace) + [Event.Flush(locs)] && dirty == old(dirty) - locs
      ensures forall loc :: Recorded(old(trace), loc) ==> Recorded(trace, loc)
    {
      TrackedFacts();
      Happened(Event.Flush(locs), nodes);
    }

    /** `add_log_entry`: an undo record of some words of a node. */
    ghost method LogWords(vals: map<Loc, Val>)
      requires Tracked() && forall loc :: loc in vals ==>
        loc.n in nodes && InNode(loc) && vals[loc] == ValAt(nodes, loc)
      modifies this`trace, this`dirty
      ensures Tracked() && trace == old(trace) + [Record(vals)] && dirty == old(dirty)
      ensures forall loc :: Recorded(old(trace), loc) || loc in vals ==> Recorded(trace, loc)
    {
      TrackedFacts();
      Happened(Record(vals), nodes);
    }

    ghost method LogSlot(n: Ptr)
      requires Tracked() && n in nodes
      modifies this`trace, this`dirty
      ensures Tracked() && dirty == old(dirty)
      ensures forall loc :: Recorded(old(trace), loc) || loc == SlotOf(n) ==> Recorded(trace, loc)
    {
      LogWords(map[SlotOf(n) := ValAt(nodes, SlotOf(n))]);
    }

    ghost method LogParent(n: Ptr)
      requires Tracked() && n in nodes
      modifies this`trace, this`dirty
      ensures Tracked() && dirty == old(dirty)
      ensures forall loc :: Recorded(old(trace), loc) || loc == ParentOf(n) ==> Recorded(trace, loc)
    {
      LogWords(map[ParentOf(n) := ValAt(nodes, ParentOf(n))]);
    }

    /** A whole node in chunks of 48 bytes; the fourth chunk is padding. */
    ghost method LogNode(n: Ptr)
      requires Tracked() && n in nodes
      modifies this`trace, this`dirty
      ensures Tracked() && dirty == old(dirty)
      ensures forall loc :: Recorded(old(trace), loc) || loc in NodeLocs(n) ==> Recorded(trace, loc)
    {
      hide Tracked, Recorded;
      var a, b, c := Chunk1(nodes, n), Chunk2(nodes, n), Chunk3(nodes, n);
      ChunksCover(nodes, n);
      LogWords(a);
      LogWords(b);
      LogWords(c);
    }

    method AllocNode() returns (n: Ptr)
      requires Tracked()
      modifies this`nodes, this`trace, this`dirty, this`brk
      ensures Tracked() && n == old(brk) && n !in old(nodes) && n !in base && n in nodes
        && nodes == old(nodes)[n := nodes[n]]
      ensures IsFresh(nodes[n]) && dirty == old(dirty) + NodeLocs(n)
      ensures forall loc :: Recorded(old(trace), loc) ==> Recorded(trace, loc)
    {
      hide *;
      n := brk;
      var node := JunkNode();
      TrackedFacts();
      ghost var was := nodes;
      nodes := nodes[n := node];
      brk := brk + 1;
      MemOkIs();
      NewEffect(was, n, node);
      Happened(New(n, node), was);
      NewDirty(old(dirty), n, node);
    }

    /** A new operation: what memory holds now is what must survive. */
    ghost method Begin(log: bool)
      requires MemOk()
      modifies this`base, this`baseRoot, this`trace, this`dirty, this`logged
      ensures Tracked() && base == nodes && baseRoot == root && trace == [] && dirty == {} && logged == log
    {
      TracedStart(nodes, root, log);
      base, baseRoot, trace, dirty, logged := nodes, root, [], {}, log;
    }

    lemma ValidFacts()
      requires Valid()
      ensures MemOk() && Shape(nodes, info, map[], root) && Agree(nodes, info, abs)
      ensures brk > 0 && forall n :: n in nodes ==> 0 < n < brk
    {
    }

    lemma ValidIs()
      requires brk > 0 && (forall n :: n in nodes ==> 0 < n < brk) && Shape(nodes, info, map[], root)
        && Agree(nodes, info, abs)
      ensures Valid()
    {
    }

    // -------------------------------------------------------------- looking up

    /** Follow the pointers to the leaf that covers a key. */
    method FindLeaf(curr: Ptr, key: int) returns (leaf: Ptr)
      requires Valid() && Covers(nodes, info, curr, key)
      ensures Covers(nodes, info, leaf, key) && info[leaf].level == 0
      decreases if curr in info then info[curr].level else 0
    {
      hide *;
      ValidFacts();
      CoversParts(nodes, info, curr, key);
      ShapeAt(nodes, info, map[], root, curr);
      NodeFitsParts(nodes, info, curr);
      if nodes[curr].isLeaf { return curr; }
      DescendTo(nodes, info, root, curr, key);
      LiveParts(nodes[curr]);
      var n := nodes[curr];
      var loc := Search(n, key);
      if loc > n.slot[0] {
        leaf := FindLeaf(n.entries[n.slot[loc - 1]].tid, key);
      } else if n.entries[n.slot[loc]].key <= key {
        leaf := FindLeaf(n.entries[n.slot[loc]].tid, key);
      } else if loc == 1 {
        leaf := FindLeaf(n.leftmost, key);
      } else {
        leaf := FindLeaf(n.entries[n.slot[loc - 1]].tid, key);
      }
    }

    /** The position both readers of a single key look at. */
    method Locate(key: int) returns (curr: Ptr, loc: int, found: bool)
      requires Valid() && 0 <= key < TOP
      ensures Covers(nodes, info, curr, key) && curr in nodes && curr in info && info[curr].level == 0
        && NodeOk(nodes[curr]) && Sized(nodes[curr])
      ensures 0 <= loc <= nodes[curr].slot[0] && 0 <= nodes[curr].slot[loc] < 7
      ensures found <==> nodes[curr].entries[nodes[curr].slot[loc]].key == key
      ensures key in abs ==> found && loc > 0 && nodes[curr].entries[nodes[curr].slot[loc]].tid == abs[key]
      ensures key in abs ==> loc == LowerBound(Live(nodes[curr]), key) + 1
      ensures key !in abs && found ==> LiveOf(nodes, curr) == [] && loc == 0
      ensures LiveOf(nodes, curr) == Live(nodes[curr])
        && LeafAgrees(Live(nodes[curr]), info[curr].lo, info[curr].hi, abs)
      ensures KeysBetween(Live(nodes[curr]), info[curr].lo, info[curr].hi - 1)
        && (key in abs <==> HasKey(Live(nodes[curr]), key))
    {
      hide *;
      ValidFacts();
      RootCovers(nodes, info, root, key);
      curr := FindLeaf(root, key);
      CoversParts(nodes, info, curr, key);
      LeafDecides(nodes, info, root, abs, curr, key);
      LiveParts(nodes[curr]);
      FoundAt(Live(nodes[curr]), key);
      var n := nodes[curr];
      loc := Search(n, key);
      if key in abs { BoundAs(Live(n), info[curr].lo, info[curr].hi, abs, loc - 1); }
      if loc <= n.slot[0] {
        LowerBoundKeys(Live(n), key);
        found := n.entries[n.slot[loc]].key == key;
      } else {
        loc := n.slot[0];
        if loc > 0 { LowerBoundKeys(Live(n), key); }
        found := n.entries[n.slot[loc]].key == key;
      }
    }

    /** The value bound to a key, else 0.  A leaf that has lost its last entry still answers with what
        its first entry held. */
    method Lookup(key: int) returns (r: int, ghost leaf: Ptr)
      requires Valid() && 0 <= key < TOP
      ensures Covers(nodes, info, leaf, key) && leaf in nodes && leaf in info && info[leaf].level == 0
        && Sized(nodes[leaf])
      ensures key in abs ==> r == abs[key]
      ensures key !in abs ==> r == if StaleAt(nodes, leaf, key) then nodes[leaf].entries[0].tid else 0
    {
      hide *;
      var curr, loc, found := Locate(key);
      leaf := curr;
      StaleIs(nodes, curr, key);
      LiveParts(nodes[curr]);
      if found { r := nodes[curr].entries[nodes[curr].slot[loc]].tid; } else { r := 0; }
    }

    /** Rebind a key.  One word changes, and it is flushed.  An absent key that a leaf without live entries
        still shows in its first entry is overwritten there; nothing live changes. */
    method Update(key: int, value: int) returns (r: int, ghost leaf: Ptr)
      requires Valid() && 0 <= key < TOP
      modifies this
      ensures Valid() && root == old(root) && info == old(info) && base == old(nodes)
      ensures Covers(old(nodes), info, leaf, key) && leaf in info && info[leaf].level == 0
      ensures leaf in old(nodes) && leaf in nodes && Sized(old(nodes)[leaf])
      ensures abs == if key in old(abs) then old(abs)[key := value] else old(abs)
      ensures r == if key in old(abs) || StaleAt(old(nodes), leaf, key) then value else 0
      ensures key !in old(abs) && !StaleAt(old(nodes), leaf, key) ==> nodes == old(nodes) && trace == []
      ensures key !in old(abs) && StaleAt(old(nodes), leaf, key) ==>
        nodes == old(nodes)[leaf := old(nodes)[leaf].(entries := old(nodes)[leaf].entries[0 := Pair(key, value)])]
      ensures key in old(abs) || StaleAt(old(nodes), leaf, key) ==>
        exists i :: 0 <= i < 7 && old(nodes)[leaf].entries[i].key == key
            && (key in old(abs) ==> Used(old(nodes)[leaf], i))
                    && nodes == old(nodes)[leaf :=
                         old(nodes)[leaf].(entries := old(nodes)[leaf].entries[i := Pair(key, value)])]
                    && trace == [Store(TidAt(leaf, i), Word(value)), Event.Flush({TidAt(leaf, i)})]
      ensures Persisted(old(nodes), trace, nodes, root)
    {
      hide *;
      ValidFacts();
      var curr, loc, found := Locate(key);
      leaf := curr;
      StaleIs(nodes, curr, key);
      CoversParts(nodes, info, curr, key);
      LiveParts(nodes[curr]);
      Begin(false);
      if !found {
        NothingDone(nodes, root, false);
        ValidIs();
        return 0, leaf;
      }
      var i := nodes[curr].slot[loc];
      ghost var n0, live := nodes[curr], Live(nodes[curr]);
      if key in abs { UsedAt(n0, loc); }
      MayStoreFreely(TidAt(curr, i));
      StoreTid(curr, i, value);
      FlushWords({TidAt(curr, i)});
      TrackedFacts();
      assert dirty == {};
      TracedPersists(base, baseRoot, trace, nodes, root, false);
      EntryRebound(n0, loc, value);
      assert n0.entries[i].(tid := value) == Pair(key, value);
      if key in abs {
        RebindAgrees(live, info[curr].lo, info[curr].hi, abs, loc - 1, value);
        RebindBetween(live, info[curr].lo, info[curr].hi - 1, loc - 1, value);
        LeafUpdated(old(nodes), nodes, info, root, curr, abs, abs[key := value]);
        abs := abs[key := value];
      } else {
        LeafUpdated(old(nodes), nodes, info, root, curr, abs, abs);
      }
      ValidIs();
      return value, leaf;
    }

    lemma MayStoreFreely(loc: Loc)
      requires !logged
      ensures MayStore(loc)
    {
    }

    /** Remove a bound key: one slot store. */
    method Delete(key: int) returns (ghost leaf: Ptr)
      requires Valid() && 0 <= key < TOP && key in abs
      modifies this
      ensures Valid() && abs == old(abs) - {key} && root == old(root) && info == old(info)
      ensures Covers(old(nodes), info, leaf, key) && leaf in info && info[leaf].level == 0
      ensures base == old(nodes) && Persisted(old(nodes), trace, nodes, root)
      ensures leaf in old(nodes) && leaf in nodes && nodes == old(nodes)[leaf := nodes[leaf]]
        && LeafAtomic(old(nodes), old(root), trace, leaf, nodes[leaf])
      ensures nodes[leaf] == old(nodes)[leaf].(slot := nodes[leaf].slot) && FewerUsed(old(nodes)[leaf], nodes[leaf])
    {
      hide *;
      ValidFacts();
      var curr, loc, _ := Locate(key);
      leaf := curr;
      CoversParts(nodes, info, curr, key);
      LiveParts(nodes[curr]);
      Begin(false);
      DeleteInLeaf(curr, key);
      ghost var live := Live(old(nodes)[curr]);
      LowerBoundKeys(live, key);
      FoundAt(live, key);
      DropAgrees(live, info[curr].lo, info[curr].hi, abs, loc - 1);
      DropBetween(live, info[curr].lo, info[curr].hi - 1, loc - 1);
      LeafUpdated(old(nodes), nodes, info, root, curr, abs, abs - {key});
      abs := abs - {key};
      TrackedFacts();
      ValidIs();
    }

    method DeleteInLeaf(curr: Ptr, key: int)
      requires Tracked() && !logged && trace == [] && dirty == {} && base == nodes && curr in nodes
        && NodeOk(nodes[curr]) && HasKey(Live(nodes[curr]), key)
      modifies this`nodes, this`trace, this`dirty
      ensures Tracked() && dirty == {} && curr in nodes && nodes == old(nodes)[curr := nodes[curr]]
      ensures nodes[curr] == old(nodes)[curr].(slot := nodes[curr].slot) && NodeOk(nodes[curr])
        && FewerUsed(old(nodes)[curr], nodes[curr])
      ensures var live, l := Live(old(nodes)[curr]), LowerBound(Live(old(nodes)[curr]), key);
        l < |live| && Live(nodes[curr]) == live[..l] + live[l + 1..]
      ensures LeafAtomic(base, baseRoot, trace, curr, nodes[curr]) && Persisted(base, trace, nodes, baseRoot)
    {
      hide *;
      var n := nodes[curr];
      LiveParts(n);
      FoundAt(Live(n), key);
      var mid := Search(n, key);
      var temp := RemoveSlot(n.slot, mid);
      SlotRemoved(n, mid, temp);
      FewerUsedIs(n, mid, temp);
      RemovalIsAtomic(base, baseRoot, curr, temp);
      MayStoreFreely(SlotOf(curr));
      StoreSlot(curr, temp);
      FlushWords({SlotOf(curr)});
      assert [] + [Store(SlotOf(curr), Slots(temp))] + [Event.Flush({SlotOf(curr)})]
          == [Store(SlotOf(curr), Slots(temp)), Event.Flush({SlotOf(curr)})];
    }

    /** Insert into a leaf with room: the entry is written and flushed before the slot store shows it. */
    method InsertInLeaf(curr: Ptr, key: int, value: int)
      requires Tracked() && !logged && trace == [] && dirty == {} && base == nodes && curr in nodes
        && NodeOk(nodes[curr])
      requires nodes[curr].slot[0] < 7 && !HasKey(Live(nodes[curr]), key)
      modifies this`nodes, this`trace, this`dirty
      ensures Tracked() && dirty == {} && curr in nodes && nodes == old(nodes)[curr := nodes[curr]]
      ensures nodes[curr] == old(nodes)[curr].(slot := nodes[curr].slot, entries := nodes[curr].entries)
        && NodeOk(nodes[curr])
      ensures Live(nodes[curr]) == PutPair(Live(old(nodes)[curr]), Pair(key, value))
      ensures EntryPlaced(old(nodes)[curr], nodes[curr], Pair(key, value))
      ensures LeafAtomic(base, baseRoot, trace, curr, nodes[curr]) && Persisted(base, trace, nodes, baseRoot)
    {
      hide *;
      ghost var n0 := nodes[curr];
      var n := nodes[curr];
      LiveParts(n);
      DistinctParts(n);
      var loc := FreeIndex(n);
      FirstFreeIs(n, loc);
      MayStoreFreely(KeyAt(curr, loc));
      StoreKey(curr, loc, key);
      MayStoreFreely(TidAt(curr, loc));
      StoreTid(curr, loc, value);
      FlushWords({KeyAt(curr, loc), TidAt(curr, loc)});
      FreeWrite(n, loc, Pair(key, value));
      FreeStays(n, loc, Pair(key, value));
      n := nodes[curr];
      assert n == n0.(entries := n0.entries[loc := Pair(key, value)]);
      var mid := Search(n, key);
      LiveParts(n);
      var temp := InsertSlot(n.slot, mid, loc);
      SlotInserted(n, mid, loc, temp, Pair(key, value));
      EntryPlacedIs(n0, loc, Pair(key, value), mid, temp);
      MayStoreFreely(SlotOf(curr));
      StoreSlot(curr, temp);
      FlushWords({SlotOf(curr)});
      SlotsUsed(n0, mid, loc, temp);
      AppendIsAtomic(base, baseRoot, curr, loc, Pair(key, value), nodes[curr]);
      AppendTraceIs(curr, loc, Pair(key, value), temp);
    }

    // -------------------------------------------------------------- a split climbs

    /** curr has been split; the nodes above are untouched, and nothing but `keep` and the new node
        awaits a flush. */
    ghost predicate Climbing(curr: Ptr, split: Ptr, keep: set<Loc>)
      reads this
    {
      && Tracked() && logged && root == baseRoot
      && Shape(nodes, info, map[curr := split], root) && Agree(nodes, info, abs)
      && curr in nodes && curr in info && split in nodes && split in info && split !in base && curr != split
      && Intact(nodes, base, info, info[curr].level)
      && dirty <= keep + NodeLocs(split)
    }

    lemma ClimbingParts(curr: Ptr, split: Ptr, keep: set<Loc>)
      requires Climbing(curr, split, keep)
      ensures Tracked() && logged && root == baseRoot && Shape(nodes, info, map[curr := split], root)
        && Agree(nodes, info, abs)
      ensures curr in nodes && curr in info && split in nodes && split in info && split !in base && curr != split
      ensures Intact(nodes, base, info, info[curr].level) && dirty <= keep + NodeLocs(split)
    {
    }

    lemma ClimbingIs(curr: Ptr, split: Ptr, keep: set<Loc>)
      requires Tracked() && logged && root == baseRoot && Shape(nodes, info, map[curr := split], root)
        && Agree(nodes, info, abs)
      requires curr in nodes && curr in info && split in nodes && split in info && split !in base && curr != split
      requires Intact(nodes, base, info, info[curr].level) && dirty <= keep + NodeLocs(split)
      ensures Climbing(curr, split, keep)
    {
    }

    lemma MayStoreNew(loc: Loc)
      requires loc.n !in base
      ensures MayStore(loc)
    {
    }

    lemma MayStoreRecorded(loc: Loc)
      requires Recorded(trace, loc)
      ensures MayStore(loc)
    {
    }

    /** The parent of the old root, and entries no slot refers to, are not read. */
    lemma MayStoreUnread(loc: Loc)
      requires loc.ParentOf? ==> loc.n == baseRoot
      requires loc.KeyAt? || loc.TidAt? ==> loc.n in base && Sized(base[loc.n]) && !Used(base[loc.n], loc.i)
      requires loc.ParentOf? || loc.KeyAt? || loc.TidAt?
      ensures MayStore(loc)
    {
    }

    /** The two words of an entry. */
    method StoreEntry(n: Ptr, i: int, e: Pair)
      requires Tracked() && n in nodes && MayStore(KeyAt(n, i)) && MayStore(TidAt(n, i))
        && 0 <= i < |nodes[n].entries| == 7
      modifies this`nodes, this`trace, this`dirty
      ensures Tracked() && nodes == old(nodes)[n := old(nodes)[n].(entries := old(nodes)[n].entries[i := e])]
      ensures dirty == old(dirty) + {KeyAt(n, i), TidAt(n, i)}
      ensures forall loc :: Recorded(old(trace), loc) ==> Recorded(trace, loc)
    {
      hide *;
      StoreKey(n, i, e.key);
      MayStoreStill(TidAt(n, i));
      StoreTid(n, i, e.tid);
      assert nodes[n].entries == old(nodes)[n].entries[i := e];
    }

    twostate lemma MayStoreStill(loc: Loc)
      requires old(MayStore(loc)) && logged == old(logged) && base == old(base) && baseRoot == old(baseRoot)
      requires forall l :: Recorded(old(trace), l) ==> Recorded(trace, l)
      ensures MayStore(loc)
    {
    }

    /** All of n may be written: it is new, or it has been logged. */
    ghost predicate Open(n: Ptr)
      reads this`base, this`trace
    {
      n !in base || forall loc :: loc in NodeLocs(n) ==> Recorded(trace, loc)
    }

    lemma OpenMayStore(loc: Loc)
      requires Open(loc.n) && InNode(loc)
      ensures MayStore(loc)
    {
      assert loc in NodeLocs(loc.n);
    }

    twostate lemma OpenStill(n: Ptr)
      requires old(Open(n)) && base == old(base) && forall l :: Recorded(old(trace), l) ==> Recorded(trace, l)
      ensures Open(n)
    {
    }

    /** `insert_in_leaf_noflush`, `insert_in_inner_noflush`: write a free entry and show it. */
    method PutEntry(n: Ptr, e: Pair) returns (loc: int)
      requires Tracked() && n in nodes && NodeOk(nodes[n]) && Sized(nodes[n]) && nodes[n].slot[0] < 7
        && !HasKey(Live(nodes[n]), e.key) && Open(n)
      modifies this`nodes, this`trace, this`dirty
      ensures Tracked() && 0 <= loc < 7 && n in nodes && nodes == old(nodes)[n := nodes[n]] && NodeOk(nodes[n])
      ensures nodes[n] == old(nodes)[n].(slot := nodes[n].slot, entries := nodes[n].entries)
      ensures Sized(old(nodes)[n]) && Live(nodes[n]) == PutPair(Live(old(nodes)[n]), e)
      ensures EntryPlaced(old(nodes)[n], nodes[n], e)
      ensures dirty == old(dirty) + {KeyAt(n, loc), TidAt(n, loc), SlotOf(n)}
      ensures forall loc :: Recorded(old(trace), loc) ==> Recorded(trace, loc)
    {
      hide *;
      var node := nodes[n];
      LiveParts(node);
      DistinctParts(node);
      loc := FreeIndex(node);
      FirstFreeIs(node, loc);
      ghost var was := node;
      InNodeEntry(n, loc);
      OpenMayStore(KeyAt(n, loc));
      OpenMayStore(TidAt(n, loc));
      StoreEntry(n, loc, e);
      OpenStill(n);
      FreeWrite(node, loc, e);
      FreeStays(node, loc, e);
      node := nodes[n];
      var mid := Search(node, e.key);
      LiveParts(node);
      var temp := InsertSlot(node.slot, mid, loc);
      SlotInserted(node, mid, loc, temp, e);
      EntryPlacedIs(was, loc, e, mid, temp);
      OpenMayStore(SlotOf(n));
      StoreSlot(n, temp);
    }

    lemma InNodeEntry(n: Ptr, i: int)
      requires 0 <= i < 7
      ensures InNode(KeyAt(n, i)) && InNode(TidAt(n, i)) && InNode(SlotOf(n)) && InNode(LeftOf(n))
        && InNode(ParentOf(n))
      ensures KeyAt(n, i) in NodeLocs(n) && TidAt(n, i) in NodeLocs(n) && SlotOf(n) in NodeLocs(n)
        && LeftOf(n) in NodeLocs(n) && ParentOf(n) in NodeLocs(n)
    {
    }

    /** A node with the leftmost kid curr and one entry. */
    method BuildRoot(curr: Ptr, key: int, split: Ptr) returns (r: Ptr)
      requires Tracked() && split in nodes && split !in base && curr in nodes
      modifies this`nodes, this`brk, this`trace, this`dirty
      ensures Tracked() && r !in old(nodes) && r in nodes && r !in base
        && nodes == old(nodes)[r := nodes[r]][split := old(nodes)[split].(parent := r)]
      ensures NodeOk(nodes[r]) && Live(nodes[r]) == [Pair(key, split)] && nodes[r].leftmost == curr && !nodes[r].isLeaf
      ensures dirty <= old(dirty) + NodeLocs(r) + NodeLocs(split)
      ensures forall loc :: Recorded(old(trace), loc) ==> Recorded(trace, loc)
    {
      hide *;
      r := AllocNode();
      FreshParts(nodes[r]);
      MayStoreNew(FlagOf(r));
      StoreFlag(r, false);
      MayStoreNew(LeftOf(r));
      StoreLeftmost(r, curr);
      MayStoreNew(KeyAt(r, 0));
      MayStoreNew(TidAt(r, 0));
      StoreEntry(r, 0, Pair(key, split));
      RootNodeMade(r, curr, key, split);
      MayStoreNew(ParentOf(split));
      StoreParent(split, r);
      InNodes(split, r);
      SetRootSlots(r);
      RootNode(nodes[r], curr, key, split);
    }

    method SetRootSlots(r: Ptr)
      requires Tracked() && r in nodes && r !in base && |nodes[r].slot| == 8
      modifies this`nodes, this`trace, this`dirty
      ensures Tracked() && nodes == old(nodes)[r := old(nodes)[r].(slot := old(nodes)[r].slot[1 := 0][0 := 1])]
      ensures dirty <= old(dirty) + NodeLocs(r)
      ensures forall loc :: Recorded(old(trace), loc) ==> Recorded(trace, loc)
    {
      hide *;
      InNodes(r, r);
      MayStoreNew(SlotOf(r));
      StoreSlot(r, nodes[r].slot[1 := 0]);
      MayStoreNew(SlotOf(r));
      StoreSlot(r, nodes[r].slot[0 := 1]);
    }

    lemma RootNodeMade(r: Ptr, curr: Ptr, key: int, split: Ptr)
      ensures KeyAt(r, 0) in NodeLocs(r) && TidAt(r, 0) in NodeLocs(r) && LeftOf(r) in NodeLocs(r)
        && FlagOf(r) in NodeLocs(r)
    {
    }

    lemma InNodes(a: Ptr, b: Ptr)
      ensures ParentOf(a) in NodeLocs(a) && SlotOf(b) in NodeLocs(b)
    {
    }

    /** A new root over a split one. */
    method GrowRoot(curr: Ptr, key: int, split: Ptr, ghost keep: set<Loc>)
      requires Climbing(curr, split, keep) && curr == root && split in info && key == info[split].lo
      modifies this`nodes, this`brk, this`trace, this`dirty, this`info, this`root
      ensures Tracked() && Shape(nodes, info, map[], root) && Agree(nodes, info, abs) && dirty <= keep
      ensures curr in old(info) && KeptBelow(old(nodes), nodes, old(info), info, old(info)[curr].level)
        && NewAbove(old(nodes), nodes, info, old(info)[curr].level)
      ensures LevelsKept(old(nodes), nodes, old(info), info)
      ensures forall loc :: Recorded(old(trace), loc) ==> Recorded(trace, loc)
    {
      hide *;
      ClimbingParts(curr, split, keep);
      ShapeParts(nodes, info, map[curr := split], root);
      var r := BuildRoot(curr, key, split);
      FlushWords(NodeLocs(r));
      FlushWords(NodeLocs(split));
      MayStoreUnread(ParentOf(curr));
      StoreParent(curr, r);
      FlushWords({ParentOf(curr)});
      root := r;
      ghost var R := nodes[r];
      ghost var info' := info[r := Range(0, TOP, info[curr].level + 1)];
      assert nodes
          == old(nodes)[r := R][curr := old(nodes)[curr].(parent := r)][split := old(nodes)[split].(parent := r)];
      WbShape.NewRoot(old(nodes), nodes, info, curr, split, r, R);
      GrownKeeps(old(nodes), nodes, info, info', curr, split, r, abs);
      info := info';
    }

    /** Log the slots of the parent, write the entry and the new node's parent, then the slots. */
    method PublishKid(parent: Ptr, key: int, split: Ptr)
      requires Tracked() && parent in nodes && parent in base && base[parent] == nodes[parent] && split in nodes
        && split !in base
      requires NodeOk(nodes[parent]) && Sized(nodes[parent]) && nodes[parent].slot[0] < 7
        && !HasKey(Live(nodes[parent]), key)
      modifies this`nodes, this`trace, this`dirty
      ensures Tracked() && parent in nodes && split in nodes && parent != split
      ensures nodes == old(nodes)[parent := nodes[parent]][split := old(nodes)[split].(parent := parent)]
      ensures NodeOk(nodes[parent]) && Live(nodes[parent]) == PutPair(Live(old(nodes)[parent]), Pair(key, split))
      ensures nodes[parent] == old(nodes)[parent].(slot := nodes[parent].slot, entries := nodes[parent].entries)
      ensures dirty <= old(dirty) - NodeLocs(split)
      ensures forall loc :: Recorded(old(trace), loc) ==> Recorded(trace, loc)
    {
      hide *;
      var node := nodes[parent];
      LiveParts(node);
      DistinctParts(node);
      LogSlot(parent);
      var loc := FreeIndex(node);
      MayStoreUnread(KeyAt(parent, loc));
      MayStoreUnread(TidAt(parent, loc));
      StoreEntry(parent, loc, Pair(key, split));
      FlushWords({KeyAt(parent, loc), TidAt(parent, loc)});
      FreeWrite(node, loc, Pair(key, split));
      FreeStays(node, loc, Pair(key, split));
      HangNewNode(split, parent);
      node := nodes[parent];
      var mid := Search(node, key);
      LiveParts(node);
      var temp := InsertSlot(node.slot, mid, loc);
      SlotInserted(node, mid, loc, temp, Pair(key, split));
      MayStoreRecorded(SlotOf(parent));
      StoreSlot(parent, temp);
      FlushWords({SlotOf(parent)});
    }

    method HangNewNode(split: Ptr, parent: Ptr)
      requires Tracked() && split in nodes && split !in base
      modifies this`nodes, this`trace, this`dirty
      ensures Tracked() && nodes == old(nodes)[split := old(nodes)[split].(parent := parent)]
        && dirty == old(dirty) - NodeLocs(split)
      ensures forall loc :: Recorded(old(trace), loc) ==> Recorded(trace, loc)
    {
      hide *;
      MayStoreNew(ParentOf(split));
      StoreParent(split, parent);
      InNodes(split, parent);
      FlushWords(NodeLocs(split));
    }

    /** The parent has room for the new node. */
    method EnterParent(curr: Ptr, key: int, split: Ptr, parent: Ptr, ghost keep: set<Loc>)
      requires Climbing(curr, split, keep) && curr != root && split in info && key == info[split].lo
      requires curr in nodes && parent == nodes[curr].parent && parent in nodes && |nodes[parent].slot| == 8
        && nodes[parent].slot[0] < 7
      modifies this`nodes, this`trace, this`dirty
      ensures Tracked() && Shape(nodes, info, map[], root) && Agree(nodes, info, abs) && dirty <= keep
      ensures curr in info && KeptBelow(old(nodes), nodes, info, info, info[curr].level)
        && nodes.Keys == old(nodes).Keys
      ensures forall loc :: Recorded(old(trace), loc) ==> Recorded(trace, loc)
    {
      hide *;
      ClimbingParts(curr, split, keep);
      ghost var pends: Pends := map[curr := split];
      OnePend(curr, split);
      ghost var l := NewKidPosition(nodes, info, pends, root, curr);
      IntactAt(nodes, base, info, info[curr].level, parent);
      LiveParts(nodes[parent]);
      PublishKid(parent, key, split);
      ghost var p' := nodes[parent];
      Resolve(old(nodes), nodes, info, pends, root, curr, p');
      assert pends - {curr} == map[];
      EnteredKeeps(old(nodes), nodes, info, curr, split, parent, p', abs);
    }

    // -------------------------------------------------------------- the upper half of a full node moves

    /** `Append` to the new node m, of which 3 - j entries are in place. */
    method AppendMoved(m: Ptr, j: int, e: Pair, ghost live: seq<Pair>) returns (loc: int)
      requires Tracked() && m in nodes && m !in base && 1 <= j <= 3 && |live| == 7 && HalfMoved(nodes[m], live, j)
        && e == live[3 + j]
      modifies this`nodes, this`trace, this`dirty
      ensures Tracked() && m in nodes && loc == 3 - j && |old(nodes)[m].entries| == 7
      ensures nodes == old(nodes)[m := old(nodes)[m].(entries := old(nodes)[m].entries[loc := e])]
      ensures dirty <= old(dirty) + NodeLocs(m)
      ensures forall loc :: Recorded(old(trace), loc) ==> Recorded(trace, loc)
    {
      hide *;
      HalfMovedFree(nodes[m], live, j);
      loc := FreeIndex(nodes[m]);
      LeastFree(nodes[m], loc, 3 - j);
      InNodeEntry(m, loc);
      MayStoreNew(KeyAt(m, loc));
      MayStoreNew(TidAt(m, loc));
      StoreEntry(m, loc, e);
    }

    /** Enter the moved entry into the slots of the new node. */
    method ShowMoved(m: Ptr, j: int, loc: int)
      requires Tracked() && m in nodes && m !in base && 1 <= j <= 3 && |nodes[m].slot| == 8
      modifies this`nodes, this`trace, this`dirty
      ensures Tracked() && nodes
        == old(nodes)[m := old(nodes)[m].(slot := old(nodes)[m].slot[j := loc][0 := old(nodes)[m].slot[0] + 1])]
      ensures dirty <= old(dirty) + NodeLocs(m)
      ensures forall loc :: Recorded(old(trace), loc) ==> Recorded(trace, loc)
    {
      hide *;
      InNodes(m, m);
      MayStoreNew(SlotOf(m));
      StoreSlot(m, nodes[m].slot[j := loc]);
      MayStoreNew(SlotOf(m));
      StoreSlot(m, nodes[m].slot[0 := nodes[m].slot[0] + 1]);
    }

    /** The last three kids of a full inner node go to sp, each with its parent pointer logged. */
    method MoveKids(parent: Ptr, sp: Ptr)
      requires Tracked() && parent in nodes && sp in nodes && sp !in base && parent != sp && NodeOk(nodes[parent])
        && Sized(nodes[parent]) && nodes[parent].slot[0] == 7
      requires HalfMoved(nodes[sp], Live(nodes[parent]), 3)
      requires forall i :: 4 <= i < 7 ==>
        Live(nodes[parent])[i].tid in nodes && Live(nodes[parent])[i].tid != parent && Live(nodes[parent])[i].tid != sp
      modifies this`nodes, this`trace, this`dirty
      ensures Tracked() && sp in nodes && KidsMoved(old(nodes), nodes, Live(old(nodes)[parent]), sp, 0)
      ensures HalfMoved(nodes[sp], Live(old(nodes)[parent]), 0) && nodes[sp].isLeaf == old(nodes)[sp].isLeaf
      ensures dirty <= old(dirty) + NodeLocs(sp)
      ensures forall loc :: Recorded(old(trace), loc) ==> Recorded(trace, loc)
    {
      hide *;
      ghost var live := Live(nodes[parent]);
      LiveParts(nodes[parent]);
      NoKidsMoved(nodes, live, sp);
      var j, cp := 3, nodes[parent].slot[0];
      while j > 0
        invariant 0 <= j <= 3 && cp == j + 4 && Tracked() && sp in nodes && parent in nodes
          && nodes[parent] == old(nodes)[parent]
        invariant HalfMoved(nodes[sp], live, j) && KidsMoved(old(nodes), nodes, live, sp, j)
          && nodes[sp].isLeaf == old(nodes)[sp].isLeaf
        invariant dirty <= old(dirty) + NodeLocs(sp)
        invariant forall loc :: Recorded(old(trace), loc) ==> Recorded(trace, loc)
      {
        var e := nodes[parent].entries[nodes[parent].slot[cp]];
        assert e == live[3 + j];
        MoveKid(sp, j, e, old(nodes), live);
        ParentStays(old(nodes), nodes, live, sp, j - 1, parent);
        j := j - 1;
        cp := cp - 1;
      }
    }

    method MoveKid(sp: Ptr, j: int, e: Pair, ghost nodes0: Nodes, ghost live: seq<Pair>)
      requires Tracked() && sp in nodes && sp !in base && 1 <= j <= 3 && |live| == 7 && e == live[3 + j]
      requires HalfMoved(nodes[sp], live, j) && KidsMoved(nodes0, nodes, live, sp, j) && e.tid in nodes0 && e.tid != sp
      modifies this`nodes, this`trace, this`dirty
      ensures Tracked() && sp in nodes && HalfMoved(nodes[sp], live, j - 1) && KidsMoved(nodes0, nodes, live, sp, j - 1)
      ensures nodes[sp].isLeaf == old(nodes)[sp].isLeaf
      ensures dirty <= old(dirty) + NodeLocs(sp)
      ensures forall loc :: Recorded(old(trace), loc) ==> Recorded(trace, loc)
    {
      hide *;
      ghost var before := nodes;
      HalfMovedParts(nodes[sp], live, j);
      KidsMovedKeys(nodes0, before, live, sp, j);
      var loc := AppendMoved(sp, j, e, live);
      var child := e.tid;
      LogParent(child);
      MayStoreRecorded(ParentOf(child));
      StoreParent(child, sp);
      FlushWords({ParentOf(child)});
      ShowMoved(sp, j, loc);
      HalfMovedMore(before[sp], nodes[sp], live, j, e);
      KidMovedMore(nodes0, before, nodes, live, sp, j, child);
    }

    /** Log a full parent and move its last three kids to a new node. */
    method CutParent(parent: Ptr, ghost pends: Pends) returns (sp: Ptr)
      requires Tracked() && Shape(nodes, info, pends, root) && parent in nodes && parent in info
        && info[parent].level > 0
      requires parent !in pends && !Hanging(pends, parent)
        && (forall a :: a in pends ==> a in nodes && pends[a] in nodes)
      requires |nodes[parent].slot| == 8 && nodes[parent].slot[0] == 7
      modifies this`nodes, this`brk, this`trace, this`dirty
      ensures Tracked() && sp !in old(nodes) && sp !in base && sp in nodes
      ensures Splitting(old(nodes), nodes, info, pends, root, parent, sp)
      ensures Open(parent) && dirty <= old(dirty) + NodeLocs(sp) + {SlotOf(parent)}
      ensures forall loc :: Recorded(old(trace), loc) ==> Recorded(trace, loc)
    {
      hide *;
      ghost var nodes0 := nodes;
      ShapeParts(nodes, info, pends, root);
      ShapeAt(nodes, info, pends, root, parent);
      NodeFitsParts(nodes, info, parent);
      LiveParts(nodes[parent]);
      KidsInNodes(nodes, info, pends, parent);
      sp := AllocNode();
      FreshParts(nodes[sp]);
      FreshIsHalf(nodes[sp], Live(nodes[parent]));
      MayStoreNew(FlagOf(sp));
      StoreFlag(sp, false);
      FlagInNode(sp);
      FreshIsHalf(nodes[sp], Live(nodes[parent]));
      LogNode(parent);
      ghost var nodes1 := nodes;
      MoveKids(parent, sp);
      ghost var nodes2 := nodes;
      ParentStays(nodes1, nodes, Live(nodes1[parent]), sp, 0, parent);
      OpenLogged(parent);
      InNodes(parent, parent);
      InNodeEntry(parent, 0);
      OpenMayStore(SlotOf(parent));
      StoreSlot(parent, nodes[parent].slot[0 := nodes[parent].slot[0] - 3]);
      OpenLogged(parent);
      SlotsDropped(nodes0[parent]);
      HalfMovedDone(nodes[sp], Live(nodes0[parent]));
      CutIsSplitting(nodes0, nodes1, nodes2, nodes, info, pends, root, parent, sp);
    }

    lemma FlagInNode(n: Ptr)
      ensures FlagOf(n) in NodeLocs(n)
    {
    }

    lemma OpenLogged(n: Ptr)
      requires forall loc :: loc in NodeLocs(n) ==> Recorded(trace, loc)
      ensures Open(n)
    {
    }

    /** Enter the new node into the half of its split parent that covers its key. */
    method PutKid(curr: Ptr, key: int, split: Ptr, parent: Ptr, sp: Ptr)
      requires Tracked() && curr != parent && Shape(nodes, info, (map[curr := split])[parent := sp], root)
        && curr in nodes && curr != root
      requires split in info && key == info[split].lo && split != sp && parent != sp
      requires nodes[curr].parent == parent || nodes[curr].parent == sp
      requires parent in info && sp in info && info[parent].hi == info[sp].lo && split in nodes && split !in base
        && sp !in base && Open(parent)
      requires LiveOf(nodes, sp) != [] && LiveOf(nodes, sp)[0].key == info[sp].lo && |LiveOf(nodes, sp)| < 7
        && |LiveOf(nodes, parent)| < 7
      modifies this`nodes, this`trace, this`dirty
      ensures Tracked() && Shape(nodes, info, map[parent := sp], root)
      ensures var q := old(nodes)[curr].parent;
        && q in old(nodes) && q in nodes && q != split
           && nodes == old(nodes)[q := nodes[q]][split := old(nodes)[split].(parent := q)]
        && nodes[q] == old(nodes)[q].(slot := nodes[q].slot, entries := nodes[q].entries)
      ensures sp in nodes && NodeOk(nodes[sp]) && LiveOf(nodes, sp) != [] && LiveOf(nodes, sp)[0].key == info[sp].lo
      ensures dirty <= old(dirty) - NodeLocs(split) + NodeLocs(sp) + {SlotOf(parent)}
      ensures forall loc :: Recorded(old(trace), loc) ==> Recorded(trace, loc)
    {
      hide *;
      ghost var nodes0 := nodes;
      ghost var pends: Pends := (map[curr := split])[parent := sp];
      TwoPends(curr, split, parent, sp);
      ghost var l := NewKidPosition(nodes, info, pends, root, curr);
      ShapeParts(nodes, info, pends, root);
      ShapeAt(nodes, info, pends, root, parent);
      ShapeAt(nodes, info, pends, root, sp);
      NodeFitsParts(nodes, info, parent);
      NodeFitsParts(nodes, info, sp);
      LiveParts(nodes[parent]);
      LiveParts(nodes[sp]);
      PutFirst(LiveOf(nodes, sp), Pair(key, split));
      ghost var q := nodes[curr].parent;
      PendsParts(info, pends, curr);
      assert q != split;
      if nodes[sp].entries[nodes[sp].slot[1]].key > key {
        assert q == parent;
        var loc := PutEntry(parent, Pair(key, split));
        FlushWords({KeyAt(parent, loc), TidAt(parent, loc)});
        HangNewNode(split, parent);
      } else {
        assert q == sp;
        HangNewNode(split, sp);
        OpenNew(sp);
        var loc := PutEntry(sp, Pair(key, split));
        InNodeEntry(sp, loc);
      }
      Resolve(nodes0, nodes, info, pends, root, curr, nodes[q]);
      assert pends - {curr} == map[parent := sp];
      if q == sp { LiveOfIs(nodes, sp); } else { SameLive(nodes0, nodes, sp); LiveOfIs(nodes, sp); }
    }

    lemma OpenNew(n: Ptr)
      requires n !in base
      ensures Open(n)
    {
    }

    /** Split a full parent around the new kid; the new inner node is then pending in turn. */
    method SplitParent(curr: Ptr, key: int, split: Ptr, parent: Ptr, ghost keep: set<Loc>) returns (sp: Ptr, key': int)
      requires Climbing(curr, split, keep) && curr != root && split in info && key == info[split].lo
      requires curr in nodes && parent == nodes[curr].parent && parent in nodes && |nodes[parent].slot| == 8
        && nodes[parent].slot[0] == 7
      modifies this`nodes, this`brk, this`trace, this`dirty, this`info
      ensures Climbing(parent, sp, keep) && sp in info && key' == info[sp].lo
      ensures curr in old(info) && parent in info && info[parent].level == old(info)[curr].level + 1
      ensures KeptBelow(old(nodes), nodes, old(info), info, old(info)[curr].level)
        && NewAbove(old(nodes), nodes, info, old(info)[curr].level)
      ensures LevelsKept(old(nodes), nodes, old(info), info)
      ensures root in info && root in old(info) && info[root].level == old(info)[root].level
      ensures forall loc :: Recorded(old(trace), loc) ==> Recorded(trace, loc)
    {
      hide *;
      ClimbingParts(curr, split, keep);
      ghost var nodes0, info0 := nodes, info;
      ghost var pends: Pends := map[curr := split];
      OnePend(curr, split);
      ghost var l := NewKidPosition(nodes, info, pends, root, curr);
      ShapeParts(nodes, info, pends, root);
      PendsParts(info, pends, curr);
      NotPending(info, curr, split, parent);
      sp := CutParent(parent, pends);
      ghost var nodes1 := nodes;
      CutFacts(nodes0, nodes, info, pends, root, parent, sp, curr);
      info := InfoAfter(nodes0, info, parent, sp);
      PutKid(curr, key, split, parent, sp);
      FlushWords({SlotOf(parent)});
      LiveParts(nodes[sp]);
      LiveOfIs(nodes, sp);
      key' := nodes[sp].entries[nodes[sp].slot[1]].key;
      CutKeeps(nodes0, nodes1, nodes, base, info0, info, pends, root, parent, sp, curr, split, nodes1[curr].parent,
          abs);
      OnePend(parent, sp);
      ClimbingIs(parent, sp, keep);
    }

    /** `insert_in_parent`: tell the parent of a split node, splitting upwards as far as needed. */
    method InsertInParent(curr: Ptr, key: int, split: Ptr, ghost keep: set<Loc>)
      requires Climbing(curr, split, keep) && split in info && key == info[split].lo
      modifies this`nodes, this`brk, this`trace, this`dirty, this`info, this`root
      ensures Tracked() && Shape(nodes, info, map[], root) && Agree(nodes, info, abs) && dirty <= keep
      ensures curr in old(info) && KeptBelow(old(nodes), nodes, old(info), info, old(info)[curr].level)
        && NewAbove(old(nodes), nodes, info, old(info)[curr].level)
      ensures LevelsKept(old(nodes), nodes, old(info), info)
      ensures forall loc :: Recorded(old(trace), loc) ==> Recorded(trace, loc)
      decreases if root in info && curr in info && info[root].level >= info[curr].level
        then info[root].level - info[curr].level else 0
    {
      hide *;
      ClimbingParts(curr, split, keep);
      if curr == root {
        GrowRoot(curr, key, split, keep);
        return;
      }
      ghost var nodes0, info0, level := nodes, info, info[curr].level;
      OnePend(curr, split);
      ghost var l := NewKidPosition(nodes, info, map[curr := split], root, curr);
      ShapeParts(nodes, info, map[curr := split], root);
      RootTop(info, map[curr := split], root);
      var parent := nodes[curr].parent;
      LiveParts(nodes[parent]);
      if nodes[parent].slot[0] < 7 {
        EnterParent(curr, key, split, parent, keep);
        NothingAbove(nodes0, nodes, info, level);
      } else {
        var sp, key' := SplitParent(curr, key, split, parent, keep);
        ghost var nodes1, info1 := nodes, info;
        ClimbingParts(parent, sp, keep);
        ShapeParts(nodes, info, map[parent := sp], root);
        InsertInParent(parent, key', sp, keep);
        KeptThrough(nodes0, nodes1, nodes, info0, info1, info, level, level + 1);
      }
    }

    // -------------------------------------------------------------- insertion

    /** Log a full leaf and move its last three entries to a new leaf. */
    method CutLeaf(leaf: Ptr) returns (split: Ptr)
      requires Tracked() && Shape(nodes, info, map[], root) && leaf in nodes && leaf in info && info[leaf].level == 0
      requires |nodes[leaf].slot| == 8 && nodes[leaf].slot[0] == 7
      modifies this`nodes, this`brk, this`trace, this`dirty
      ensures Tracked() && split !in old(nodes) && split !in base && split in nodes && leaf in nodes
      ensures nodes == old(nodes)[leaf := nodes[leaf]][split := nodes[split]]
      ensures Splitting(old(nodes), nodes, info, map[], root, leaf, split)
      ensures ZeroCut(old(nodes)[leaf], nodes[leaf], nodes[split])
      ensures dirty <= old(dirty) + NodeLocs(split) + {SlotOf(leaf)}
      ensures forall loc :: Recorded(old(trace), loc) || loc in NodeLocs(leaf) ==> Recorded(trace, loc)
    {
      hide *;
      ghost var nodes0 := nodes;
      ShapeParts(nodes, info, map[], root);
      ShapeAt(nodes, info, map[], root, leaf);
      NodeFitsParts(nodes, info, leaf);
      LiveParts(nodes[leaf]);
      ghost var live := Live(nodes[leaf]);
      LogNode(leaf);
      split := AllocNode();
      FreshParts(nodes[split]);
      FreshIsHalf(nodes[split], live);
      InNodeEntry(split, 0);
      MayStoreNew(LeftOf(split));
      StoreLeftmost(split, nodes[leaf].leftmost);
      FreshIsHalf(nodes[split], live);
      MoveEntries(leaf, split);
      InNodeEntry(leaf, 0);
      OpenLogged(leaf);
      OpenMayStore(SlotOf(leaf));
      StoreSlot(leaf, nodes[leaf].slot[0 := nodes[leaf].slot[0] - 3]);
      SlotsDropped(nodes0[leaf]);
      HalfMovedDone(nodes[split], live);
      FewerUsedCut(nodes0[leaf]);
      HalfMovedZero(nodes[split], live);
      ZeroCutIs(nodes0[leaf], nodes[leaf], nodes[split]);
      LeafCutIsSplitting(nodes0, nodes, info, root, leaf, split);
    }

    method MoveEntries(leaf: Ptr, split: Ptr)
      requires Tracked() && leaf in nodes && split in nodes && split !in base && leaf != split && NodeOk(nodes[leaf])
        && Sized(nodes[leaf]) && nodes[leaf].slot[0] == 7
      requires HalfMoved(nodes[split], Live(nodes[leaf]), 3)
      modifies this`nodes, this`trace, this`dirty
      ensures Tracked() && split in nodes && nodes == old(nodes)[split := nodes[split]]
      ensures HalfMoved(nodes[split], Live(old(nodes)[leaf]), 0) && nodes[split].isLeaf == old(nodes)[split].isLeaf
      ensures dirty <= old(dirty) + NodeLocs(split)
      ensures forall loc :: Recorded(old(trace), loc) ==> Recorded(trace, loc)
    {
      hide *;
      ghost var live := Live(nodes[leaf]);
      LiveParts(nodes[leaf]);
      var j, cp := 3, nodes[leaf].slot[0];
      while j > 0
        invariant 0 <= j <= 3 && cp == j + 4 && Tracked() && split in nodes
          && nodes == old(nodes)[split := nodes[split]]
        invariant HalfMoved(nodes[split], live, j) && nodes[split].isLeaf == old(nodes)[split].isLeaf
        invariant dirty <= old(dirty) + NodeLocs(split)
        invariant forall loc :: Recorded(old(trace), loc) ==> Recorded(trace, loc)
      {
        ghost var before := nodes[split];
        var e := nodes[leaf].entries[nodes[leaf].slot[cp]];
        assert e == live[3 + j];
        HalfMovedParts(before, live, j);
        var loc := AppendMoved(split, j, e, live);
        ShowMoved(split, j, loc);
        HalfMovedMore(before, nodes[split], live, j, e);
        j := j - 1;
        cp := cp - 1;
      }
    }

    /** Put the new entry into the half that covers its key. */
    method PutInHalf(leaf: Ptr, split: Ptr, e: Pair)
      requires Tracked() && Shape(nodes, info, map[leaf := split], root) && Agree(nodes, info, abs) && leaf != split
      requires leaf in nodes && split in nodes && leaf in info && split in info && info[leaf].level == 0
        && info[split].level == 0
      requires info[leaf].lo <= e.key < info[split].hi && info[leaf].hi == info[split].lo && e.key !in abs
      requires split !in base && Open(leaf) && LiveOf(nodes, split) != []
        && LiveOf(nodes, split)[0].key == info[split].lo
      requires |LiveOf(nodes, split)| < 7 && |LiveOf(nodes, leaf)| < 7
      modifies this`nodes, this`trace, this`dirty, this`abs
      ensures Tracked() && Shape(nodes, info, map[leaf := split], root) && Agree(nodes, info, abs)
        && abs == old(abs)[e.key := e.tid]
      ensures nodes.Keys == old(nodes).Keys && (forall n ::
        n in nodes && n != leaf && n != split ==> nodes[n] == old(nodes)[n])
      ensures NodeOk(nodes[split]) && LiveOf(nodes, split) != [] && LiveOf(nodes, split)[0].key == info[split].lo
      ensures LiveOf(old(nodes), leaf) != [] ==> LiveOf(nodes, leaf) != []
      ensures leaf in nodes && if e.key < info[split].lo
              then EntryPlaced(old(nodes)[leaf], nodes[leaf], e) && nodes[split] == old(nodes)[split]
              else EntryPlaced(old(nodes)[split], nodes[split], e) && nodes[leaf] == old(nodes)[leaf]
      ensures dirty <= old(dirty) + NodeLocs(split) + {SlotOf(leaf)}
      ensures forall loc :: Recorded(old(trace), loc) ==> Recorded(trace, loc)
    {
      hide *;
      ghost var nodes0 := nodes;
      ghost var pends: Pends := map[leaf := split];
      HalfReady(nodes, info, pends, root, leaf, abs, e);
      HalfReady(nodes, info, pends, root, split, abs, e);
      ShapeParts(nodes, info, pends, root);
      LiveParts(nodes[leaf]);
      LiveParts(nodes[split]);
      PutFirst(LiveOf(nodes, split), e);
      NotFirst(LiveOf(nodes, split), e.key);
      if nodes[split].entries[nodes[split].slot[1]].key > e.key {
        var loc := PutEntry(leaf, e);
        FlushWords({KeyAt(leaf, loc), TidAt(leaf, loc)});
        PutInOne(nodes0, nodes, info, pends, root, leaf, abs, e);
        SameLive(nodes0, nodes, split);
      } else {
        OpenNew(split);
        var loc := PutEntry(split, e);
        InNodeEntry(split, loc);
        PutInOne(nodes0, nodes, info, pends, root, split, abs, e);
        SameLive(nodes0, nodes, leaf);
      }
      LiveOfIs(nodes, split);
      abs := abs[e.key := e.tid];
    }

    /** Log and split a full leaf, and put the new entry into one of the halves. */
    method SplitLeafFor(leaf: Ptr, e: Pair) returns (split: Ptr)
      requires Tracked() && logged && root == baseRoot && base == nodes && dirty == {}
      requires Shape(nodes, info, map[], root) && Agree(nodes, info, abs) && e.key !in abs
      requires leaf in nodes && leaf in info && info[leaf].level == 0 && info[leaf].lo <= e.key < info[leaf].hi
      requires |nodes[leaf].slot| == 8 && nodes[leaf].slot[0] == 7
      modifies this`nodes, this`brk, this`trace, this`dirty, this`info, this`abs
      ensures Climbing(leaf, split, {SlotOf(leaf)}) && abs == old(abs)[e.key := e.tid] && leaf in info
        && info[leaf].level == 0
      ensures split in nodes && split !in old(nodes) && NodeOk(nodes[split]) && LiveOf(nodes, split) != []
        && split in info && LiveOf(nodes, split)[0].key == info[split].lo
      ensures nodes.Keys == old(nodes).Keys + {split}
        && (forall n :: n in old(nodes) && n != leaf ==> nodes[n] == old(nodes)[n])
      ensures info.Keys == nodes.Keys && leaf in old(info) && |LiveOf(old(nodes), leaf)| == 7
      ensures info == InfoAfter(old(nodes), old(info), leaf, split)
      ensures leaf in nodes && ZeroParted(old(nodes)[leaf], nodes[leaf], nodes[split], e)
      ensures forall loc :: loc in NodeLocs(leaf) ==> Recorded(trace, loc)
    {
      hide *;
      ghost var nodes0, info0 := nodes, info;
      ShapeAt(nodes, info, map[], root, leaf);
      split := CutLeaf(leaf);
      SplittingIn(nodes0, nodes, info, map[], root, leaf, split);
      LeafCutFacts(nodes0, nodes, info, root, leaf, split, abs, InfoAfter(nodes0, info, leaf, split));
      OpenLogged(leaf);
      info := InfoAfter(nodes0, info, leaf, split);
      HalvesReadyParts(nodes, info, leaf, split);
      ghost var nodes1 := nodes;
      PutInHalf(leaf, split, e);
      ZeroPartedHere(nodes0, nodes1, nodes, leaf, split, info[split].lo, e);
      OnlyLeafChanged(nodes0, nodes, info0, info, leaf, split);
      ClimbingIs(leaf, split, {SlotOf(leaf)});
    }

    /** The split leaf points to the new one. */
    method LinkLeaf(leaf: Ptr, split: Ptr)
      requires Tracked() && leaf in nodes && dirty <= {SlotOf(leaf)}
      requires forall loc :: loc in NodeLocs(leaf) ==> Recorded(trace, loc)
      modifies this`nodes, this`trace, this`dirty
      ensures Tracked() && dirty == {} && nodes == old(nodes)[leaf := old(nodes)[leaf].(leftmost := split)]
    {
      hide *;
      OpenLogged(leaf);
      InNodeEntry(leaf, 0);
      OpenMayStore(LeftOf(leaf));
      StoreLeftmost(leaf, split);
      FlushWords({SlotOf(leaf)});
      FlushWords({LeftOf(leaf)});
      assert dirty == {};
    }

    /** Insert into a full leaf: log, split, and tell the parents. */
    method InsertBySplit(leaf: Ptr, key: int, value: int) returns (split: Ptr)
      requires Tracked() && logged && root == baseRoot && base == nodes && dirty == {}
      requires Shape(nodes, info, map[], root) && Agree(nodes, info, abs) && key !in abs
      requires leaf in nodes && leaf in info && info[leaf].level == 0 && info[leaf].lo <= key < info[leaf].hi
      requires |nodes[leaf].slot| == 8 && nodes[leaf].slot[0] == 7
      modifies this`nodes, this`brk, this`trace, this`dirty, this`info, this`abs, this`root
      ensures Tracked() && Shape(nodes, info, map[], root) && Agree(nodes, info, abs) && abs == old(abs)[key := value]
        && dirty == {}
      ensures |LiveOf(old(nodes), leaf)| == 7 && LeafParted(old(info), info, leaf, LiveOf(old(nodes), leaf)[4].key)
      ensures Parted(old(nodes), old(info), nodes, info, leaf, split, Pair(key, value))
    {
      hide *;
      ghost var nodes0, info0 := nodes, info;
      ShapeParts(nodes, info, map[], root);
      split := SplitLeafFor(leaf, Pair(key, value));
      LiveParts(nodes[split]);
      LiveOfIs(nodes, split);
      ghost var nodes1, info1 := nodes, info;
      InsertInParent(leaf, nodes[split].entries[nodes[split].slot[1]].key, split, {SlotOf(leaf)});
      KeptAt(nodes1, nodes, info1, info, 0, leaf);
      ghost var nodes2 := nodes;
      LinkLeaf(leaf, split);
      LeafRelinked(nodes2, nodes, info, root, leaf, abs);
      LeafInfo(nodes0, info0, leaf, split);
      ShapeParts(nodes, info, map[], root);
      LeafPartedIs(nodes0, nodes1, nodes2, info0, info1, info, leaf, split, LiveOf(nodes0, leaf)[4].key);
      PartedIs(nodes0, nodes1, nodes2, nodes, info0, info1, info, leaf, split, Pair(key, value));
    }

    /** Insert a key that is not bound.  A full leaf is split under the protection of the log, at its fifth
        key; otherwise the leaf changes in one slot store, and the entry goes to its first free place. */
    method Insert(key: int, value: int) returns (splits: bool, ghost leaf: Ptr, ghost split: Ptr)
      requires Valid() && 0 <= key < TOP && key !in abs
      modifies this
      ensures Valid() && abs == old(abs)[key := value]
      ensures base == old(nodes) && Persisted(old(nodes), trace, nodes, root)
      ensures Covers(old(nodes), old(info), leaf, key) && leaf in old(info) && old(info)[leaf].level == 0
      ensures leaf in old(nodes) && leaf in nodes && Sized(old(nodes)[leaf]) && Sized(nodes[leaf])
      ensures splits <==> |LiveOf(old(nodes), leaf)| == 7
      ensures splits ==> UndoSafe(old(nodes), old(root), trace)
      ensures splits ==>
        |LiveOf(old(nodes), leaf)| == 7 && LeafParted(old(info), info, leaf, LiveOf(old(nodes), leaf)[4].key)
      ensures !splits ==> root == old(root) && info == old(info) && nodes == old(nodes)[leaf := nodes[leaf]]
      ensures !splits ==> LeafAtomic(old(nodes), old(root), trace, leaf, nodes[leaf])
      ensures !splits ==> EntryPlaced(old(nodes)[leaf], nodes[leaf], Pair(key, value))
      ensures !splits ==>
        nodes[leaf] == old(nodes)[leaf].(slot := nodes[leaf].slot, entries := nodes[leaf].entries)
      ensures splits ==> Parted(old(nodes), old(info), nodes, info, leaf, split, Pair(key, value))
    {
      hide *;
      ValidFacts();
      RootCovers(nodes, info, root, key);
      ShapeParts(nodes, info, map[], root);
      var curr := FindLeaf(root, key);
      leaf, split := curr, curr;
      CoversParts(nodes, info, curr, key);
      LeafDecides(nodes, info, root, abs, curr, key);
      LiveParts(nodes[curr]);
      ghost var nodes0, info0 := nodes, info;
      NodeSizeIs7();
      if nodes[curr].slot[0] == NODE_SIZE {
        splits := true;
        Begin(true);
        split := InsertBySplit(curr, key, value);
        TrackedFacts();
        TracedIsSafe(base, baseRoot, trace, nodes, root);
        LeafPartedAt(info0, info, curr, LiveOf(nodes0, curr)[4].key);
        ShapeParts(nodes, info, map[], root);
        ShapeAt(nodes, info, map[], root, curr);
        NodeFitsParts(nodes, info, curr);
        ValidIs();
      } else {
        splits := false;
        ghost var live := Live(nodes[curr]);
        Begin(false);
        InsertInLeaf(curr, key, value);
        LiveParts(nodes[curr]);
        PutAgrees(live, info[curr].lo, info[curr].hi, abs, Pair(key, value));
        PutBetweenKeys(live, info[curr].lo, info[curr].hi - 1, Pair(key, value));
        LeafUpdated(nodes0, nodes, info, root, curr, abs, abs[key := value]);
        abs := abs[key := value];
        TrackedFacts();
        ValidIs();
      }
    }
  }

  /** The state after a full parent has been cut. */
  lemma CutFacts(nodes0: Nodes, nodes: Nodes, info: Info, pends: Pends, root: Ptr, parent: Ptr, sp: Ptr, curr: Ptr)
    requires Shape(nodes0, info, pends, root) && Splitting(nodes0, nodes, info, pends, root, parent, sp)
    requires curr in nodes0 && curr != parent && nodes0[curr].parent == parent
    ensures parent in nodes0 && parent in info && |LiveOf(nodes0, parent)| == 7 && NodeFits(nodes0, info, parent)
      && sp !in nodes0 && curr in nodes
    ensures Shape(nodes, InfoAfter(nodes0, info, parent, sp), pends[parent := sp], root)
    ensures nodes[curr].parent == parent || nodes[curr].parent == sp
    ensures var info' := InfoAfter(nodes0, info, parent, sp);
      && info'.Keys == nodes.Keys && parent in info' && sp in info' && info'[parent].hi == info'[sp].lo
      && LiveOf(nodes, sp) != [] && LiveOf(nodes, sp)[0].key == info'[sp].lo && |LiveOf(nodes, sp)| < 7
         && |LiveOf(nodes, parent)| < 7
      && (forall c :: c in info && c != parent ==> c in info' && info'[c] == info[c])
      && info'[parent].level == info[parent].level
    ensures nodes.Keys == nodes0.Keys + {sp}
  {
    hide *;
    SplittingIn(nodes0, nodes, info, pends, root, parent, sp);
    ShapeAt(nodes0, info, pends, root, parent);
    SplittingParts(nodes0, nodes, info, pends, root, parent, sp);
    SplitNode(nodes0, nodes, info, pends, root, parent, sp);
    ParentAfterIs(nodes0, info, parent, sp, curr);
    HalvesStart(LiveOf(nodes0, parent));
  }

  lemma NotPending(info: Info, curr: Ptr, split: Ptr, parent: Ptr)
    requires PendsFit(info, map[curr := split]) && parent in info && curr in info
      && info[parent].level == info[curr].level + 1
    ensures parent != curr && !Hanging(map[curr := split], parent)
  {
    var pends: Pends := map[curr := split];
    assert curr in pends && pends[curr] == split;
  }

  lemma HalvesStart(live: seq<Pair>)
    requires |live| == 7
    ensures |live[..4]| == 4 && |live[4..]| == 3 && live[4..][0] == live[4]
  {
  }

  lemma NothingAbove(nodes: Nodes, nodes': Nodes, info: Info, level: nat)
    requires nodes'.Keys == nodes.Keys
    ensures NewAbove(nodes, nodes', info, level) && LevelsKept(nodes, nodes', info, info)
  {
  }

  lemma KeptThrough(nodes0: Nodes, nodes1: Nodes, nodes2: Nodes, info0: Info, info1: Info, info2: Info, level: nat,
                    level': nat)
    requires KeptBelow(nodes0, nodes1, info0, info1, level) && NewAbove(nodes0, nodes1, info1, level) && level <= level'
    requires KeptBelow(nodes1, nodes2, info1, info2, level') && NewAbove(nodes1, nodes2, info2, level')
    requires info1.Keys == nodes1.Keys && LevelsKept(nodes0, nodes1, info0, info1)
      && LevelsKept(nodes1, nodes2, info1, info2)
    ensures KeptBelow(nodes0, nodes2, info0, info2, level) && NewAbove(nodes0, nodes2, info2, level)
    ensures LevelsKept(nodes0, nodes2, info0, info2)
  {
    forall n | n in nodes2 && n !in nodes0 ensures n in info2 && info2[n].level > level {
      if n in nodes1 {
        assert info1[n].level > level;
      }
    }
  }

  /** Cutting the parent and entering the kid leaves the levels above and the leaves as they were. */
  lemma CutKeeps(nodes0: Nodes, nodes1: Nodes, nodes2: Nodes, base: Nodes, info0: Info, info1: Info, pends: Pends,
                 root: Ptr, parent: Ptr, sp: Ptr, curr: Ptr, split: Ptr, q: Ptr, abs: map<int, int>)
    requires Shape(nodes0, info0, pends, root) && Splitting(nodes0, nodes1, info0, pends, root, parent, sp)
      && parent in nodes0 && NodeFits(nodes0, info0, parent)
    requires |LiveOf(nodes0, parent)| == 7 && parent in info0 && info1 == InfoAfter(nodes0, info0, parent, sp)
    requires (q == parent || q == sp) && q in nodes1 && q in nodes2 && split in nodes0 && split != q
      && split != parent && nodes2 == nodes1[q := nodes2[q]][split := nodes1[split].(parent := q)]
    requires curr in info0 && curr in nodes0 && info0[parent].level == info0[curr].level + 1 && split in info0
      && info0[split].level == info0[curr].level
    requires Agree(nodes0, info0, abs) && Intact(nodes0, base, info0, info0[curr].level)
    ensures Intact(nodes2, base, info1, info0[parent].level) && Agree(nodes2, info1, abs)
    ensures KeptBelow(nodes0, nodes2, info0, info1, info0[curr].level)
      && NewAbove(nodes0, nodes2, info1, info0[curr].level)
    ensures LevelsKept(nodes0, nodes2, info0, info1)
    ensures parent in info1 && sp in info1 && info1[parent].level == info0[parent].level
      && (root in info0 ==> root in info1 && info1[root].level == info0[root].level)
  {
    hide *;
    SplittingParts(nodes0, nodes1, info0, pends, root, parent, sp);
    ShapeParts(nodes0, info0, pends, root);
    ShapeAt(nodes0, info0, pends, root, parent);
    forall n | n in nodes0 && n != parent
      ensures nodes1[n] == nodes0[n].(parent := nodes1[n].parent)
      ensures info0[n].level > info0[parent].level ==> nodes1[n] == nodes0[n]
    {
      ParentAfterIs(nodes0, info0, parent, sp, n);
      if Moved(nodes0, info0, parent, n) {
        if info0[parent].level > 0 { MovedParent(nodes0, info0, pends, parent, n); }
            else { MovedLevel(nodes0, info0, parent, n); }
      }
    }
    CutKeepsSimple(nodes0, nodes1, nodes2, base, info0, info1, parent, sp, curr, split, q);
    forall n | n in nodes2 && n in info1 && info1[n].level == 0
      ensures n in nodes0 && n in info0 && info1[n] == info0[n] && LiveOf(nodes2, n) == LiveOf(nodes0, n)
    {
      SameLive(nodes0, nodes2, n);
    }
    AgreeFrame(nodes0, nodes2, info0, info1, abs);
  }

  lemma MovedLevel(nodes: Nodes, info: Info, n: Ptr, c: Ptr)
    requires Moved(nodes, info, n, c)
    ensures n in info && info[n].level > 0
  {
  }

  lemma CutKeepsSimple(nodes0: Nodes, nodes1: Nodes, nodes2: Nodes, base: Nodes, info0: Info, info1: Info, parent: Ptr,
                       sp: Ptr, curr: Ptr, split: Ptr, q: Ptr)
    requires info0.Keys == nodes0.Keys && parent in nodes0 && sp !in nodes0 && nodes1.Keys == nodes0.Keys + {sp}
      && info1.Keys == nodes1.Keys
    requires forall n :: n in nodes0 && n != parent ==> nodes1[n] == nodes0[n].(parent := nodes1[n].parent)
    requires forall n :: n in nodes0 && n != parent && info0[n].level > info0[parent].level ==> nodes1[n] == nodes0[n]
    requires forall c :: c in info0 && c != parent ==> info1[c] == info0[c]
    requires info1[parent].level == info0[parent].level && info1[sp].level == info0[parent].level
    requires (q == parent || q == sp) && q in nodes2 && split in nodes0 && split != q && split != parent
      && nodes2 == nodes1[q := nodes2[q]][split := nodes1[split].(parent := q)]
    requires curr in info0 && info0[parent].level == info0[curr].level + 1 && split in info0
      && info0[split].level == info0[curr].level
    requires Intact(nodes0, base, info0, info0[curr].level)
    ensures Intact(nodes2, base, info1, info0[parent].level)
    ensures KeptBelow(nodes0, nodes2, info0, info1, info0[curr].level)
      && NewAbove(nodes0, nodes2, info1, info0[curr].level)
    ensures LevelsKept(nodes0, nodes2, info0, info1)
    ensures forall n :: n in nodes2 && info1[n].level == 0 ==>
      n in nodes0 && info1[n] == info0[n] && nodes2[n] == nodes0[n].(parent := nodes2[n].parent)
  {
  }

  lemma KidsInNodes(nodes: Nodes, info: Info, pends: Pends, n: Ptr)
    requires W.KidsFit(V(nodes), info, pends, n)
    ensures n in info
    ensures var live := LiveOf(nodes, n);
      forall i :: 0 <= i < |live| ==>
          live[i].tid in nodes && live[i].tid in info && live[i].tid != n && info[live[i].tid].level < info[n].level
  {
    hide *;
    Seen(nodes);
    W.KidsInNodes(V(nodes), info, pends, n);
  }

  /** The steps of the cut amount to a split. */
  lemma CutIsSplitting(nodes0: Nodes, nodes1: Nodes, nodes2: Nodes, nodes: Nodes, info: Info, pends: Pends, root: Ptr,
                       parent: Ptr, sp: Ptr)
    requires Shape(nodes0, info, pends, root) && parent in nodes0 && parent in info && info[parent].level > 0
      && sp !in nodes0
    requires parent !in pends && !Hanging(pends, parent)
      && (forall a :: a in pends ==> a in nodes0 && pends[a] in nodes0)
    requires NodeOk(nodes0[parent]) && Sized(nodes0[parent]) && nodes0[parent].slot[0] == 7
      && LiveOf(nodes0, parent) == Live(nodes0[parent])
    requires sp in nodes1 && nodes1 == nodes0[sp := nodes1[sp]] && !nodes1[sp].isLeaf
    requires sp in nodes && parent in nodes
    requires parent in nodes2 && KidsMoved(nodes1, nodes2, Live(nodes0[parent]), sp, 0)
      && nodes2[parent] == nodes1[parent]
    requires nodes == nodes2[parent := nodes2[parent].(slot := nodes2[parent].slot[0 := 4])]
    requires NodeOk(nodes0[parent].(slot := nodes0[parent].slot[0 := 4]))
      && Live(nodes0[parent].(slot := nodes0[parent].slot[0 := 4])) == Live(nodes0[parent])[..4]
    requires NodeOk(nodes[sp]) && Live(nodes[sp]) == Live(nodes0[parent])[4..] && !nodes[sp].isLeaf
    ensures Splitting(nodes0, nodes, info, pends, root, parent, sp)
  {
    hide *;
    ShapeParts(nodes0, info, pends, root);
    ShapeAt(nodes0, info, pends, root, parent);
    NodeFitsParts(nodes0, info, parent);
    LiveOfIs(nodes, parent);
    LiveOfIs(nodes, sp);
    KidsMovedKeys(nodes1, nodes2, Live(nodes0[parent]), sp, 0);
    LiveParts(nodes0[parent]);
    forall c | c in nodes0 && c != parent
      ensures nodes[c] == nodes0[c].(parent := ParentAfter(nodes0, info, parent, sp, c))
    {
      MovedIsBeyond(nodes0, info, parent, c);
      KidsMovedAt(nodes1, nodes2, Live(nodes0[parent]), sp, c);
      ParentAfterIs(nodes0, info, parent, sp, c);
    }
    NewIsNotHanging(pends, nodes0, sp);
    SplittingIs(nodes0, nodes, info, pends, root, parent, sp);
  }

  lemma MovedIsBeyond(nodes: Nodes, info: Info, n: Ptr, c: Ptr)
    requires n in info && info[n].level > 0
    ensures Moved(nodes, info, n, c) <==> KidBeyond(LiveOf(nodes, n), 0, c)
  {
    Seen(nodes);
    hide LiveOf, V;
  }

  lemma KidsMovedAt(nodes: Nodes, nodes': Nodes, live: seq<Pair>, sp: Ptr, c: Ptr)
    requires KidsMoved(nodes, nodes', live, sp, 0) && c in nodes && c != sp
    ensures c in nodes' && nodes'[c] == nodes[c].(parent := if KidBeyond(live, 0, c) then sp else nodes[c].parent)
  {
    hide KidBeyond;
  }

  lemma NewIsNotHanging(pends: Pends, nodes: Nodes, sp: Ptr)
    requires sp !in nodes && forall a :: a in pends ==> a in nodes && pends[a] in nodes
    ensures sp !in pends && !Hanging(pends, sp)
  {
  }

  lemma SplittingIs(nodes: Nodes, nodes': Nodes, info: Info, pends: Pends, root: Ptr, n: Ptr, m: Ptr)
    requires info.Keys == nodes.Keys && n in nodes && m !in nodes && n !in pends && !Hanging(pends, n)
      && !Hanging(pends, m) && m !in pends
    requires NodeOk(nodes[n]) && |LiveOf(nodes, n)| == 7 && nodes'.Keys == nodes.Keys + {m}
    requires NodeOk(nodes'[n]) && LiveOf(nodes', n) == LiveOf(nodes, n)[..4]
    requires NodeOk(nodes'[m]) && LiveOf(nodes', m) == LiveOf(nodes, n)[4..]
    requires nodes'[n].leftmost == nodes[n].leftmost && nodes'[n].parent == nodes[n].parent
      && nodes'[n].isLeaf == nodes[n].isLeaf == nodes'[m].isLeaf
    requires forall c :: c in nodes && c != n ==> nodes'[c] == nodes[c].(parent := ParentAfter(nodes, info, n, m, c))
    ensures Splitting(nodes, nodes', info, pends, root, n, m)
  {
    hide LiveOf, NodeOk, Hanging, ParentAfter;
  }

  /** The new node has the entries of `live` beyond position 3 + j, the greatest first in its array. */
  ghost predicate HalfMoved(m: Node, live: seq<Pair>, j: int) {
    && 0 <= j <= 3 && |m.slot| == 8 && |m.entries| == 7 && |live| == 7 && m.slot[0] == 3 - j
    && (forall k :: j < k <= 3 ==> m.slot[k] == 3 - k)
    && (forall k :: 1 <= k <= j ==> m.slot[k] == 0)
    && (forall i :: 0 <= i < 3 - j ==> m.entries[i] == live[6 - i])
  }

  lemma HalfMovedParts(m: Node, live: seq<Pair>, j: int)
    requires HalfMoved(m, live, j)
    ensures |m.slot| == 8 && |m.entries| == 7 && m.slot[0] == 3 - j && |live| == 7
  {
  }

  lemma FreshIsHalf(m: Node, live: seq<Pair>)
    requires |m.slot| == 8 && (forall j :: 0 <= j < 8 ==> m.slot[j] == 0) && |m.entries| == 7 && |live| == 7
    ensures HalfMoved(m, live, 3)
  {
  }

  /** The scan for a free entry works although the slots are filled from the back: the first ones
      still hold zero. */
  lemma HalfMovedFree(m: Node, live: seq<Pair>, j: int)
    requires HalfMoved(m, live, j) && j >= 1
    ensures Sized(m) && Distinct(m) && m.slot[0] < 7 && forall i :: Used(m, i) <==> 0 <= i < 3 - j
  {
    assert j == 1 || j == 2 || j == 3;
    if j == 1 {
      assert m.slot[1] == 0 && m.slot[2] == 1;
      UsedAt(m, 1);
      UsedAt(m, 2);
    } else if j == 2 {
      assert m.slot[1] == 0;
      UsedAt(m, 1);
    }
  }

  lemma LeastFree(m: Node, loc: int, k: int)
    requires Sized(m) && 0 <= loc < 7 && !Used(m, loc) && (forall i :: 0 <= i < loc ==> Used(m, i))
    requires 0 <= k < 7 && forall i :: Used(m, i) <==> 0 <= i < k
    ensures loc == k
  {
    assert !Used(m, k) && (Used(m, loc) <==> 0 <= loc < k);
  }

  lemma HalfMovedMore(m: Node, m': Node, live: seq<Pair>, j: int, e: Pair)
    requires HalfMoved(m, live, j) && j >= 1 && e == live[3 + j]
    requires m'.slot == m.slot[j := 3 - j][0 := m.slot[0] + 1] && m'.entries == m.entries[3 - j := e]
    ensures HalfMoved(m', live, j - 1)
  {
  }

  lemma HalfMovedDone(m: Node, live: seq<Pair>)
    requires HalfMoved(m, live, 0) && Strict(live)
    ensures NodeOk(m) && Live(m) == live[4..]
  {
    assert m.slot[1] == 2 && m.slot[2] == 1 && m.slot[3] == 0;
    assert m.entries[2] == live[4] && m.entries[1] == live[5] && m.entries[0] == live[6];
    assert Sized(m) && Distinct(m);
    var upper := live[4..];
    assert upper[0] == live[4] && upper[1] == live[5] && upper[2] == live[6];
    assert Live(m) == upper;
    forall i, j | 0 <= i < j < 3 ensures upper[i].key < upper[j].key { assert upper[i] == live[4 + i]
        && upper[j] == live[4 + j]; }
  }

  lemma HalfMovedZero(m: Node, live: seq<Pair>)
    requires HalfMoved(m, live, 0)
    ensures |m.entries| == 7 == |live| && m.entries[0] == live[6] && (Sized(m) ==> ZeroKnown(m))
  {
    if Sized(m) { assert m.slot[3] == 0; }
  }

  lemma ZeroPartedHere(nodes0: Nodes, nodes1: Nodes, nodes: Nodes, leaf: Ptr, split: Ptr, lo: int, e: Pair)
    requires leaf in nodes0 && leaf in nodes1 && split in nodes1 && leaf in nodes && split in nodes
    requires ZeroCut(nodes0[leaf], nodes1[leaf], nodes1[split])
    requires LiveOf(nodes1, split) != [] && LiveOf(nodes1, split)[0].key == lo
    requires if e.key < lo then EntryPlaced(nodes1[leaf], nodes[leaf], e) && nodes[split] == nodes1[split]
             else EntryPlaced(nodes1[split], nodes[split], e) && nodes[leaf] == nodes1[leaf]
    ensures ZeroParted(nodes0[leaf], nodes[leaf], nodes[split], e)
  {
    hide EntryPlaced, ZeroParted;
    LiveOfIs(nodes1, split);
    ZeroPartedAt(nodes0[leaf], nodes1[leaf], nodes1[split], nodes[leaf], nodes[split], lo, e);
  }

  lemma ZeroCutIs(n: Node, n': Node, m: Node)
    requires NodeOk(n) && Sized(n) && |Live(n)| == 7 && FewerUsed(n, n') && n'.entries == n.entries && Sized(n')
      && Live(n') == Live(n)[..4]
    requires NodeOk(m) && Sized(m) && |m.entries| == 7 && (Sized(m) ==> ZeroKnown(m)) && m.entries[0] == Live(n)[6]
      && Live(m) == Live(n)[4..]
    ensures ZeroCut(n, n', m)
  {
  }

  /** Kids beyond position 3 + j have the parent sp; nothing else has changed, except sp. */
  ghost predicate KidsMoved(nodes: Nodes, nodes': Nodes, live: seq<Pair>, sp: Ptr, j: int) {
    && nodes'.Keys == nodes.Keys
    && forall c :: c in nodes && c != sp ==>
       nodes'[c] == nodes[c].(parent := if KidBeyond(live, j, c) then sp else nodes[c].parent)
  }

  ghost predicate KidBeyond(live: seq<Pair>, j: int, c: Ptr) {
    exists i :: 4 + j <= i < |live| && 0 <= i && live[i].tid == c
  }

  lemma NoKidsMoved(nodes: Nodes, live: seq<Pair>, sp: Ptr)
    requires |live| == 7
    ensures KidsMoved(nodes, nodes, live, sp, 3)
  {
  }

  /** A node that is no kid keeps its parent. */
  lemma ParentStays(nodes: Nodes, nodes': Nodes, live: seq<Pair>, sp: Ptr, j: int, p: Ptr)
    requires KidsMoved(nodes, nodes', live, sp, j) && p in nodes && p != sp && |live| == 7 && 0 <= j
    requires forall i :: 4 <= i < 7 ==> live[i].tid != p
    ensures p in nodes' && nodes'[p] == nodes[p]
  {
  }

  lemma KidsMovedKeys(nodes: Nodes, nodes': Nodes, live: seq<Pair>, sp: Ptr, j: int)
    requires KidsMoved(nodes, nodes', live, sp, j)
    ensures nodes'.Keys == nodes.Keys
  {
  }

  lemma KidMovedMore(nodes0: Nodes, nodes: Nodes, nodes': Nodes, live: seq<Pair>, sp: Ptr, j: int, child: Ptr)
    requires KidsMoved(nodes0, nodes, live, sp, j) && 1 <= j <= 3 && |live| == 7 && child == live[3 + j].tid
      && child != sp && child in nodes0 && sp in nodes
    requires sp in nodes' && nodes' == nodes[child := nodes[child].(parent := sp)][sp := nodes'[sp]]
    ensures KidsMoved(nodes0, nodes', live, sp, j - 1)
  {
    forall c | c in nodes0 && c != sp
      ensures KidBeyond(live, j - 1, c) <==> KidBeyond(live, j, c) || c == child
    {
      if c == child { assert live[3 + j].tid == c; }
    }
  }

  lemma IntactAt(nodes: Nodes, base: Nodes, info: Info, level: nat, n: Ptr)
    requires Intact(nodes, base, info, level) && n in nodes && n in info && info[n].level > level
    ensures n in base && nodes[n] == base[n]
  {
  }

  lemma EnteredKeeps(nodes: Nodes, nodes': Nodes, info: Info, curr: Ptr, split: Ptr, parent: Ptr, p': Node,
                     abs: map<int, int>)
    requires info.Keys == nodes.Keys && curr in nodes && split in nodes && parent in nodes && Agree(nodes, info, abs)
    requires info[parent].level > info[curr].level
      && nodes' == nodes[parent := p'][split := nodes[split].(parent := parent)] && split != parent
    ensures KeptBelow(nodes, nodes', info, info, info[curr].level) && Agree(nodes', info, abs)
      && nodes'.Keys == nodes.Keys
  {
    hide Agree;
    forall n | n in nodes' && n in info && info[n].level == 0
      ensures LiveOf(nodes', n) == LiveOf(nodes, n)
    {
      SameLive(nodes, nodes', n);
    }
    AgreeFrame(nodes, nodes', info, info, abs);
  }

  /** Nodes stay, on their levels. */
  ghost predicate LevelsKept(nodes: Nodes, nodes': Nodes, info: Info, info': Info) {
    forall n :: n in nodes && n in info ==> n in nodes' && n in info' && info'[n].level == info[n].level
  }

  /** New nodes are above a level. */
  ghost predicate NewAbove(nodes: Nodes, nodes': Nodes, info: Info, level: nat) {
    forall n :: n in nodes' && n !in nodes ==> n in info && info[n].level > level
  }

  /** What a new node holds after `memset` and setting the flag. */
  method JunkNode() returns (node: Node)
    ensures IsFresh(node)
  {
    var entries := new Pair[7];
    var p, q := *, *;
    node := Node(seq(8, _ => 0), entries[..], p, q, true);
  }

  lemma NewEffect(nodes: Nodes, n: Ptr, node: Node)
    requires n !in nodes
    ensures Effect(New(n, node), nodes, nodes[n := node])
  {
  }

  lemma NewDirty(dirty: set<Loc>, n: Ptr, node: Node)
    ensures DirtyAfter(dirty, New(n, node)) == dirty + NodeLocs(n)
  {
  }

  lemma FreshParts(n: Node)
    requires IsFresh(n)
    ensures |n.slot| == 8 && (forall j :: 0 <= j < 8 ==> n.slot[j] == 0) && n.isLeaf && |n.entries| == 7
  {
  }

  lemma RootNode(n: Node, curr: Ptr, key: int, split: Ptr)
    requires |n.slot| == 8 && n.slot[0] == 1 && n.slot[1] == 0 && |n.entries| == 7 && n.entries[0] == Pair(key, split)
    ensures NodeOk(n) && Live(n) == [Pair(key, split)]
  {
  }

  lemma GrownKeeps(nodes: Nodes, nodes': Nodes, info: Info, info': Info, curr: Ptr, split: Ptr, r: Ptr,
                   abs: map<int, int>)
    requires info.Keys == nodes.Keys && curr in nodes && split in nodes && r !in nodes && Agree(nodes, info, abs)
    requires r in nodes' && nodes'
      == nodes[r := nodes'[r]][curr := nodes[curr].(parent := r)][split := nodes[split].(parent := r)]
    requires info' == info[r := Range(0, TOP, info[curr].level + 1)]
    ensures KeptBelow(nodes, nodes', info, info', info[curr].level) && NewAbove(nodes, nodes', info', info[curr].level)
    ensures Agree(nodes', info', abs) && LevelsKept(nodes, nodes', info, info')
  {
    hide Agree;
    forall n | n in nodes' && n in info' && info'[n].level == 0
      ensures n in nodes && n in info && info'[n] == info[n] && LiveOf(nodes', n) == LiveOf(nodes, n)
    {
      SameLive(nodes, nodes', n);
    }
    AgreeFrame(nodes, nodes', info, info', abs);
  }

  ghost predicate IsFresh(n: Node) {
    |n.slot| == 8 && (forall j :: 0 <= j < 8 ==> n.slot[j] == 0) && n.isLeaf && |n.entries| == 7
  }

  ghost function Chunk1(nodes: Nodes, n: Ptr): map<Loc, Val> {
    map loc | loc in {SlotOf(n), KeyAt(n, 0), TidAt(n, 0), KeyAt(n, 1), TidAt(n, 1), KeyAt(n, 2)} :: ValAt(nodes, loc)
  }

  ghost function Chunk2(nodes: Nodes, n: Ptr): map<Loc, Val> {
    map loc | loc in {TidAt(n, 2), KeyAt(n, 3), TidAt(n, 3), KeyAt(n, 4), TidAt(n, 4), KeyAt(n, 5)} :: ValAt(nodes, loc)
  }

  ghost function Chunk3(nodes: Nodes, n: Ptr): map<Loc, Val> {
    map loc | loc in {TidAt(n, 5), KeyAt(n, 6), TidAt(n, 6), LeftOf(n), ParentOf(n), FlagOf(n)} :: ValAt(nodes, loc)
  }

  lemma ChunksCover(nodes: Nodes, n: Ptr)
    ensures forall loc :: loc in NodeLocs(n) ==>
      loc in Chunk1(nodes, n) || loc in Chunk2(nodes, n) || loc in Chunk3(nodes, n)
    ensures ChunkOk(nodes, n, Chunk1(nodes, n)) && ChunkOk(nodes, n, Chunk2(nodes, n))
      && ChunkOk(nodes, n, Chunk3(nodes, n))
  {
    hide *;
    forall loc | loc in NodeLocs(n) ensures loc in Chunk1(nodes, n) || loc in Chunk2(nodes, n)
        || loc in Chunk3(nodes, n) {
      ChunkOf(nodes, n, loc);
    }
    Chunk1Ok(nodes, n);
    Chunk2Ok(nodes, n);
    Chunk3Ok(nodes, n);
  }

  ghost predicate ChunkOk(nodes: Nodes, n: Ptr, vals: map<Loc, Val>) {
    forall loc :: loc in vals ==> loc.n == n && InNode(loc) && vals[loc] == ValAt(nodes, loc)
  }

  lemma Chunk1Ok(nodes: Nodes, n: Ptr)
    ensures ChunkOk(nodes, n, Chunk1(nodes, n))
  {
    hide ValAt;
  }

  lemma Chunk2Ok(nodes: Nodes, n: Ptr)
    ensures ChunkOk(nodes, n, Chunk2(nodes, n))
  {
    hide ValAt;
  }

  lemma Chunk3Ok(nodes: Nodes, n: Ptr)
    ensures ChunkOk(nodes, n, Chunk3(nodes, n))
  {
    hide ValAt;
  }

  lemma ChunkOf(nodes: Nodes, n: Ptr, loc: Loc)
    requires loc.n == n && InNode(loc)
    ensures loc in Chunk1(nodes, n) || loc in Chunk2(nodes, n) || loc in Chunk3(nodes, n)
  {
    hide ValAt;
    match loc {
      case KeyAt(_, i) => assert i == 0 || i == 1 || i == 2 || i == 3 || i == 4 || i == 5 || i == 6;
      case TidAt(_, i) => assert i == 0 || i == 1 || i == 2 || i == 3 || i == 4 || i == 5 || i == 6;
      case _ =>
    }
  }

  lemma NothingDone(nodes: Nodes, root: Ptr, logged: bool)
    ensures Persisted(nodes, [], nodes, root)
  {
    TracedStart(nodes, root, logged);
    TracedPersists(nodes, root, [], nodes, root, logged);
  }

  /** Writing the value of entry slot[loc]; loc 0 of an empty leaf shows nothing. */
  lemma EntryRebound(n: Node, loc: int, value: int)
    requires NodeOk(n) && |n.slot| == 8 && 0 <= loc <= n.slot[0] && 0 <= n.slot[loc] < 7 && |n.entries| == 7
    requires loc == 0 ==> n.slot[0] == 0
    ensures var i := n.slot[loc]; var n' := n.(entries := n.entries[i := n.entries[i].(tid := value)]);
      && NodeOk(n')
      && (loc > 0 ==> loc <= |Live(n)| && Live(n') == Live(n)[loc - 1 := Pair(Live(n)[loc - 1].key, value)])
      && (loc == 0 ==> Live(n') == Live(n))
  {
    var i := n.slot[loc];
    var n' := n.(entries := n.entries[i := n.entries[i].(tid := value)]);
    if loc > 0 {
      forall j | 0 <= j < |Live(n)| ensures Live(n')[j] == Live(n)[loc - 1 := Pair(Live(n)[loc - 1].key, value)][j] {
        if j != loc - 1 { assert n.slot[j + 1] != n.slot[loc]; }
      }
      assert Live(n') == Live(n)[loc - 1 := Pair(Live(n)[loc - 1].key, value)];
    } else {
      assert Live(n') == Live(n);
    }
  }

  lemma DistinctParts(n: Node)
    requires NodeOk(n)
    ensures Sized(n) && Distinct(n)
  {
  }

  lemma FreeStays(n: Node, i: int, e: Pair)
    requires Sized(n) && 0 <= i < 7 && !Used(n, i)
    ensures var n' := n.(entries := n.entries[i := e]); Sized(n') && !Used(n', i) && n'.entries[i] == e
  {
  }

  /** A new slot array refers to the new entry and to entries in use. */
  lemma SlotsUsed(n: Node, mid: int, loc: int, temp: seq<int>)
    requires Sized(n) && n.slot[0] < 7 && 1 <= mid <= n.slot[0] + 1
    requires |temp| == 8 && temp[0] == n.slot[0] + 1 && temp[mid] == loc
    requires forall j :: 1 <= j < mid ==> temp[j] == n.slot[j]
    requires forall j :: mid < j <= n.slot[0] + 1 ==> temp[j] == n.slot[j - 1]
    ensures forall j :: 1 <= j <= temp[0] ==> temp[j] == loc || Used(n, temp[j])
  {
    forall j | 1 <= j <= temp[0] ensures temp[j] == loc || Used(n, temp[j]) {
      if j < mid { UsedAt(n, j); } else if j > mid { UsedAt(n, j - 1); }
    }
  }

  lemma AppendTraceIs(n: Ptr, i: int, e: Pair, slot: seq<int>)
    ensures [] + [Store(KeyAt(n, i), Word(e.key))] + [Store(TidAt(n, i), Word(e.tid))]
      + [Event.Flush({KeyAt(n, i), TidAt(n, i)})]
            + [Store(SlotOf(n), Slots(slot))] + [Event.Flush({SlotOf(n)})] == AppendTrace(n, i, e, slot)
  {
  }

  // ---------------------------------------------------------------- facts for insertion

  lemma NodeSizeIs7()
    ensures NODE_SIZE == 7
  {
  }

  lemma LeafCutIsSplitting(nodes0: Nodes, nodes: Nodes, info: Info, root: Ptr, leaf: Ptr, split: Ptr)
    requires Shape(nodes0, info, map[], root) && leaf in nodes0 && leaf in info && info[leaf].level == 0
      && split !in nodes0
    requires NodeOk(nodes0[leaf]) && Sized(nodes0[leaf]) && nodes0[leaf].slot[0] == 7
      && LiveOf(nodes0, leaf) == Live(nodes0[leaf]) && nodes0[leaf].isLeaf
    requires split in nodes && leaf in nodes && nodes == nodes0[leaf := nodes[leaf]][split := nodes[split]]
    requires nodes[leaf] == nodes0[leaf].(slot := nodes0[leaf].slot[0 := 4]) && NodeOk(nodes[leaf])
      && Live(nodes[leaf]) == Live(nodes0[leaf])[..4]
    requires NodeOk(nodes[split]) && Live(nodes[split]) == Live(nodes0[leaf])[4..] && nodes[split].isLeaf
    ensures Splitting(nodes0, nodes, info, map[], root, leaf, split)
  {
    hide *;
    ShapeParts(nodes0, info, map[], root);
    LiveOfIs(nodes, leaf);
    LiveOfIs(nodes, split);
    LiveParts(nodes0[leaf]);
    NothingHangs(leaf);
    NothingHangs(split);
    forall c | c in nodes0 && c != leaf
      ensures nodes[c] == nodes0[c].(parent := ParentAfter(nodes0, info, leaf, split, c))
    {
      ParentAfterIs(nodes0, info, leaf, split, c);
      if Moved(nodes0, info, leaf, c) { MovedLevel(nodes0, info, leaf, c); }
    }
    SplittingIs(nodes0, nodes, info, map[], root, leaf, split);
  }

  /** Two new leaf halves, ready for one more entry. */
  ghost predicate HalvesReady(nodes: Nodes, info: Info, leaf: Ptr, split: Ptr) {
    && info.Keys == nodes.Keys && leaf in info && split in info && leaf != split
    && info[leaf].hi == info[split].lo && info[leaf].level == 0 && info[split].level == 0
    && LiveOf(nodes, split) != [] && LiveOf(nodes, split)[0].key == info[split].lo && |LiveOf(nodes, split)| < 7
    && LiveOf(nodes, leaf) != [] && |LiveOf(nodes, leaf)| < 7
  }

  lemma HalvesReadyParts(nodes: Nodes, info: Info, leaf: Ptr, split: Ptr)
    requires HalvesReady(nodes, info, leaf, split)
    ensures info.Keys == nodes.Keys && leaf in info && split in info && leaf in nodes && split in nodes && leaf != split
    ensures info[leaf].hi == info[split].lo && info[leaf].level == 0 && info[split].level == 0
    ensures LiveOf(nodes, split) != [] && LiveOf(nodes, split)[0].key == info[split].lo && |LiveOf(nodes, split)| < 7
    ensures LiveOf(nodes, leaf) != [] && |LiveOf(nodes, leaf)| < 7
  {
    hide LiveOf;
  }

  /** The state after a full leaf has been cut. */
  lemma LeafCutFacts(nodes0: Nodes, nodes: Nodes, info: Info, root: Ptr, leaf: Ptr, split: Ptr, abs: map<int, int>,
                     info': Info)
    requires Shape(nodes0, info, map[], root) && Splitting(nodes0, nodes, info, map[], root, leaf, split)
      && Agree(nodes0, info, abs)
    requires leaf in nodes0 && leaf in info && info[leaf].level == 0 && |LiveOf(nodes0, leaf)| == 7
      && info' == InfoAfter(nodes0, info, leaf, split)
    ensures Shape(nodes, info', map[leaf := split], root) && Agree(nodes, info', abs)
      && HalvesReady(nodes, info', leaf, split)
    ensures nodes.Keys == nodes0.Keys + {split} && leaf in info' && split in info' && info'[leaf].lo == info[leaf].lo
      && info'[split].hi == info[leaf].hi
    ensures forall c :: c in info && c != leaf ==> c in info' && info'[c] == info[c]
  {
    hide *;
    SplittingIn(nodes0, nodes, info, map[], root, leaf, split);
    ShapeAt(nodes0, info, map[], root, leaf);
    SplittingParts(nodes0, nodes, info, map[], root, leaf, split);
    SplitNode(nodes0, nodes, info, map[], root, leaf, split);
    AgreeSplit(nodes0, nodes, info, map[], root, leaf, split, abs);
    HalvesStart(LiveOf(nodes0, leaf));
    HalvesReadyIs(nodes, info', leaf, split);
    var empty: Pends := map[];
    assert empty[leaf := split] == map[leaf := split];
  }

  lemma HalvesReadyIs(nodes: Nodes, info: Info, leaf: Ptr, split: Ptr)
    requires info.Keys == nodes.Keys && leaf in info && split in info && leaf != split
    requires info[leaf].hi == info[split].lo && info[leaf].level == 0 && info[split].level == 0
    requires LiveOf(nodes, split) != [] && LiveOf(nodes, split)[0].key == info[split].lo && |LiveOf(nodes, split)| < 7
    requires LiveOf(nodes, leaf) != [] && |LiveOf(nodes, leaf)| < 7
    ensures HalvesReady(nodes, info, leaf, split)
  {
    hide LiveOf;
  }

  lemma HalfReady(nodes: Nodes, info: Info, pends: Pends, root: Ptr, n: Ptr, abs: map<int, int>, e: Pair)
    requires Shape(nodes, info, pends, root) && Agree(nodes, info, abs) && n in nodes && n in info
      && info[n].level == 0 && e.key !in abs
    ensures NodeOk(nodes[n]) && LiveOf(nodes, n) == Live(nodes[n])
      && KeysBetween(Live(nodes[n]), info[n].lo, info[n].hi - 1)
    ensures LeafAgrees(Live(nodes[n]), info[n].lo, info[n].hi, abs) && !HasKey(Live(nodes[n]), e.key)
  {
    hide *;
    ShapeAt(nodes, info, pends, root, n);
    NodeFitsParts(nodes, info, n);
    AgreeAt(nodes, info, n, abs);
    NotStored(Live(nodes[n]), info[n].lo, info[n].hi, abs, e.key);
  }

  /** A leaf, which may await its parent, takes a new binding. */
  lemma PutInOne(nodes: Nodes, nodes': Nodes, info: Info, pends: Pends, root: Ptr, n: Ptr, abs: map<int, int>, e: Pair)
    requires Shape(nodes, info, pends, root) && Agree(nodes, info, abs) && n in nodes && n in info
      && info[n].level == 0 && e.key !in abs
    requires info[n].lo <= e.key < info[n].hi && n in nodes' && nodes' == nodes[n := nodes'[n]]
    requires nodes'[n] == nodes[n].(slot := nodes'[n].slot, entries := nodes'[n].entries) && NodeOk(nodes'[n])
    requires Sized(nodes[n]) && Live(nodes'[n]) == PutPair(Live(nodes[n]), e)
    ensures Shape(nodes', info, pends, root) && Agree(nodes', info, abs[e.key := e.tid])
      && LiveOf(nodes', n) == PutPair(LiveOf(nodes, n), e) && LiveOf(nodes', n) != []
  {
    hide *;
    HalfReady(nodes, info, pends, root, n, abs, e);
    ShapeParts(nodes, info, pends, root);
    PutBetweenKeys(Live(nodes[n]), info[n].lo, info[n].hi - 1, e);
    PutAgrees(Live(nodes[n]), info[n].lo, info[n].hi, abs, e);
    LeafChanged(nodes, nodes', info, pends, root, n);
    LiveOfIs(nodes', n);
    forall c | c in nodes && c != n ensures LiveOf(nodes', c) == LiveOf(nodes, c) { SameLive(nodes, nodes', c); }
    forall c | c in nodes && c in info && c != n ensures KeysBetween(LiveOf(nodes, c), info[c].lo, info[c].hi - 1) {
      ShapeAt(nodes, info, pends, root, c);
      NodeFitsParts(nodes, info, c);
    }
    AgreeChanged(nodes, nodes', info, n, abs, abs[e.key := e.tid]);
    PutNotEmpty(Live(nodes[n]), e);
  }

  lemma OnlyLeafChanged(nodes0: Nodes, nodes: Nodes, info0: Info, info: Info, leaf: Ptr, split: Ptr)
    requires leaf in nodes0 && split !in nodes0 && nodes.Keys == nodes0.Keys + {split} && leaf in info
      && info[leaf].level == 0 && split in info && info[split].level == 0
    requires forall n :: n in nodes0 && n != leaf ==> nodes[n] == nodes0[n]
    ensures Intact(nodes, nodes0, info, info[leaf].level)
  {
  }

  lemma KeptAt(nodes: Nodes, nodes': Nodes, info: Info, info': Info, level: nat, n: Ptr)
    requires KeptBelow(nodes, nodes', info, info', level) && n in nodes && n in info && info[n].level <= level
    ensures n in nodes' && n in info' && info'[n] == info[n] && nodes'[n] == nodes[n].(parent := nodes'[n].parent)
  {
  }

  lemma LeafRelinked(nodes: Nodes, nodes': Nodes, info: Info, root: Ptr, leaf: Ptr, abs: map<int, int>)
    requires Shape(nodes, info, map[], root) && Agree(nodes, info, abs) && leaf in nodes && leaf in info
      && info[leaf].level == 0
    requires leaf in nodes' && nodes' == nodes[leaf := nodes[leaf].(leftmost := nodes'[leaf].leftmost)]
    ensures Shape(nodes', info, map[], root) && Agree(nodes', info, abs)
  {
    hide *;
    ShapeAt(nodes, info, map[], root, leaf);
    NodeFitsParts(nodes, info, leaf);
    SameLive(nodes, nodes', leaf);
    LeafChanged(nodes, nodes', info, map[], root, leaf);
    forall n | n in nodes' ensures n in nodes && LiveOf(nodes', n) == LiveOf(nodes, n) { SameLive(nodes, nodes', n); }
    AgreeFrame(nodes, nodes', info, info, abs);
  }

  lemma LeafInfo(nodes: Nodes, info: Info, leaf: Ptr, split: Ptr)
    requires leaf in info && info[leaf].level == 0 && |LiveOf(nodes, leaf)| == 7 && split !in info
    ensures var mid := LiveOf(nodes, leaf)[4].key;
      InfoAfter(nodes, info, leaf, split) == info[leaf := Range(info[leaf].lo, mid, 0)][split := Range(mid,
          info[leaf].hi, 0)]
  {
    hide *;
    InfoAfterWeb(nodes, info, leaf, split);
    Seen(nodes);
    W.InfoAfterIs(V(nodes), info, leaf, split, 4);
  }

  lemma LeafPartedIs(nodes0: Nodes, nodes1: Nodes, nodes2: Nodes, info0: Info, info1: Info, info: Info, leaf: Ptr,
                     split: Ptr, mid: int)
    requires info0.Keys == nodes0.Keys && leaf in info0 && info0[leaf].level == 0 && split !in info0
    requires info1 == info0[leaf := Range(info0[leaf].lo, mid, 0)][split := Range(mid, info0[leaf].hi, 0)]
    requires info1.Keys == nodes1.Keys && info.Keys == nodes2.Keys
    requires KeptBelow(nodes1, nodes2, info1, info, 0) && NewAbove(nodes1, nodes2, info, 0)
    requires LevelsKept(nodes1, nodes2, info1, info)
    ensures LeafParted(info0, info, leaf, mid)
  {
    assert split in info1 && split in info && info[split] == Range(mid, info0[leaf].hi, 0);
    forall n | n in info && info[n].level == 0 ensures n == split || (n in info0 && info0[n].level == 0) {
      assert n in nodes2;
    }
  }

  /** What the leaves show, after one of them was split for an entry: the others are as they were. */
  ghost predicate Parted(nodes: Nodes, info: Info, nodes': Nodes, info': Info, leaf: Ptr, split: Ptr, e: Pair) {
    && leaf in nodes && leaf in nodes' && split in nodes' && split in info' && split !in info && info'[split].level == 0
    && ZeroParted(nodes[leaf], nodes'[leaf], nodes'[split], e)
    && forall n :: n in nodes && n in info && info[n].level == 0 && n != leaf ==>
       n in nodes' && nodes'[n].slot == nodes[n].slot && nodes'[n].entries == nodes[n].entries
  }

  lemma PartedIs(nodes0: Nodes, nodes1: Nodes, nodes2: Nodes, nodes3: Nodes, info0: Info, info1: Info, info: Info,
                 leaf: Ptr, split: Ptr, e: Pair)
    requires info0.Keys == nodes0.Keys && leaf in info0 && leaf in nodes0 && info0[leaf].level == 0 && split !in info0
    requires leaf in info1 && split in info1 && info1[leaf].level == 0 == info1[split].level
    requires nodes1.Keys == nodes0.Keys + {split} && forall n :: n in nodes0 && n != leaf ==> nodes1[n] == nodes0[n]
    requires forall n :: n in info0 && n != leaf ==> n in info1 && info1[n] == info0[n]
    requires KeptBelow(nodes1, nodes2, info1, info, 0)
    requires ZeroParted(nodes0[leaf], nodes1[leaf], nodes1[split], e)
    requires leaf in nodes2 && nodes3 == nodes2[leaf := nodes2[leaf].(leftmost := split)]
    ensures Parted(nodes0, info0, nodes3, info, leaf, split, e)
  {
    hide ZeroParted;
    KeptAt(nodes1, nodes2, info1, info, 0, leaf);
    KeptAt(nodes1, nodes2, info1, info, 0, split);
    ZeroPartedSame(nodes0[leaf], nodes1[leaf], nodes3[leaf], nodes1[split], nodes3[split], e);
    forall n | n in nodes0 && n in info0 && info0[n].level == 0 && n != leaf
      ensures n in nodes3 && nodes3[n].slot == nodes0[n].slot && nodes3[n].entries == nodes0[n].entries
    {
      KeptAt(nodes1, nodes2, info1, info, 0, n);
    }
  }

  lemma LeafPartedAt(info: Info, info': Info, leaf: Ptr, mid: int)
    requires LeafParted(info, info', leaf, mid)
    ensures leaf in info && leaf in info' && info[leaf].level == 0 && info'[leaf].level == 0
  {
  }

  /** A leaf without live entries still shows the key in its first entry. */
  ghost predicate StaleAt(nodes: Nodes, leaf: Ptr, key: int) {
    leaf in nodes && Sized(nodes[leaf]) && LiveOf(nodes, leaf) == [] && nodes[leaf].entries[0].key == key
  }

  lemma StaleIs(nodes: Nodes, leaf: Ptr, key: int)
    requires leaf in nodes && Sized(nodes[leaf]) && LiveOf(nodes, leaf) == Live(nodes[leaf])
    ensures |nodes[leaf].entries| == 7 && |nodes[leaf].slot| == 8 && |Live(nodes[leaf])| == nodes[leaf].slot[0]
    ensures StaleAt(nodes, leaf, key) <==> nodes[leaf].slot[0] == 0 && nodes[leaf].entries[0].key == key
  {
  }

  lemma FirstTree(n: Node)
    requires IsFresh(n)
    ensures Shape(map[1 := n], map[1 := Range(0, TOP, 0)], map[], 1)
      && Agree(map[1 := n], map[1 := Range(0, TOP, 0)], map[])
    ensures LiveOf(map[1 := n], 1) == []
  {
    var nodes: Nodes, info: Info := map[1 := n], map[1 := Range(0, TOP, 0)];
    assert NodeOk(n) && Live(n) == [];
    assert NodeFits(nodes, info, 1);
  }
}
