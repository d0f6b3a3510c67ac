/** What persistent memory may hold after a crash, and what undoing the log makes of it. */
module WbCrash {
  import opened SortedPairs
  import opened KeyRanges
  import opened WbNode

  type Nodes = map<Ptr, Node>

  /** One aligned word of a node. */
  datatype Loc =
    | SlotOf(n: Ptr)
    | KeyAt(n: Ptr, i: int)
    | TidAt(n: Ptr, i: int)
    | LeftOf(n: Ptr)
    | ParentOf(n: Ptr)
    | FlagOf(n: Ptr)

  datatype Val = Word(w: int) | Slots(s: seq<int>) | Flag(b: bool)

  function ValIn(n: Node, loc: Loc): Val {
    match loc
    case SlotOf(_) => Slots(n.slot)
    case KeyAt(_, i) => if 0 <= i < |n.entries| then Word(n.entries[i].key) else Word(0)
    case TidAt(_, i) => if 0 <= i < |n.entries| then Word(n.entries[i].tid) else Word(0)
    case LeftOf(_) => Word(n.leftmost)
    case ParentOf(_) => Word(n.parent)
    case FlagOf(_) => Flag(n.isLeaf)
  }

  function ValAt(nodes: Nodes, loc: Loc): Val {
    if loc.n in nodes then ValIn(nodes[loc.n], loc) else Word(0)
  }

  /** What happens to memory, in program order.  A new node comes with whatever its memory held.
      A log entry is persistent once it is written. */
  datatype Event =
    | Store(loc: Loc, v: Val)
    | New(n: Ptr, node: Node)
    | Flush(locs: set<Loc>)
    | Record(vals: map<Loc, Val>)

  type Trace = seq<Event>

  /** The value last stored. */
  ghost function Latest(base: Nodes, tr: Trace, loc: Loc): Val
    decreases |tr|
  {
    if tr == [] then ValAt(base, loc)
    else
      var before := Latest(base, tr[..|tr| - 1], loc);
      match tr[|tr| - 1]
      case Store(l, v) => if l == loc then v else before
      case New(n, node) => if n == loc.n then ValIn(node, loc) else before
      case _ => before
  }

  /** The values the word may have after a crash: the one persisted last, or any stored since. */
  ghost function Candidates(base: Nodes, tr: Trace, loc: Loc): set<Val>
    decreases |tr|
  {
    if tr == [] then {ValAt(base, loc)}
    else
      var before := Candidates(base, tr[..|tr| - 1], loc);
      match tr[|tr| - 1]
      case Store(l, v) => if l == loc then before + {v} else before
      case New(n, node) => if n == loc.n then before + {ValIn(node, loc)} else before
      case Flush(locs) => if loc in locs then {Latest(base, tr, loc)} else before
      case Record(_) => before
  }

  /** From this point on the word is not flushed. */
  ghost predicate NotFlushed(tr: Trace, j: int, loc: Loc) {
    0 <= j <= |tr| && forall f :: j <= f < |tr| ==> !(tr[f].Flush? && loc in tr[f].locs)
  }

  /** The word had the value at some point since it was last flushed. */
  ghost predicate WasSinceFlush(base: Nodes, tr: Trace, loc: Loc, v: Val) {
    exists j :: NotFlushed(tr, j, loc) && Latest(base, tr[..j], loc) == v
  }

  lemma SinceFlushMore(base: Nodes, tr: Trace, e: Event, loc: Loc, v: Val)
    ensures WasSinceFlush(base, tr + [e], loc, v) <==>
      Latest(base, tr + [e], loc) == v || (!(e.Flush? && loc in e.locs) && WasSinceFlush(base, tr, loc, v))
  {
    hide Latest;
    var all := tr + [e];
    var n := |tr|;
    assert all[..n + 1] == all && NotFlushed(all, n + 1, loc);
    forall j | 0 <= j <= n
      ensures all[..j] == tr[..j] && (NotFlushed(all, j, loc) <==>
        NotFlushed(tr, j, loc) && !(e.Flush? && loc in e.locs))
    {
      assert all[n] == e && forall f :: j <= f < n ==> all[f] == tr[f];
    }
  }

  lemma SinceFlushNone(base: Nodes, loc: Loc, v: Val)
    ensures WasSinceFlush(base, [], loc, v) <==> v == ValAt(base, loc)
  {
    var none: Trace := [];
    assert none[..0] == none && NotFlushed(none, 0, loc);
  }

  /** A word may be found as it was at any point since it was last flushed, and no other way. */
  lemma {:induction false} FoundSinceFlush(base: Nodes, tr: Trace, loc: Loc, v: Val)
    ensures v in Candidates(base, tr, loc) <==> WasSinceFlush(base, tr, loc, v)
    ensures Latest(base, tr, loc) in Candidates(base, tr, loc)
    decreases |tr|
  {
    if tr == [] {
      hide WasSinceFlush;
      SinceFlushNone(base, loc, v);
    } else {
      var before, e := tr[..|tr| - 1], tr[|tr| - 1];
      hide Latest, Candidates, WasSinceFlush, ValIn;
      assert tr == before + [e];
      FoundSinceFlush(base, before, loc, v);
      SinceFlushMore(base, before, e, loc, v);
      CandidatesMore(base, before, e, loc);
    }
  }

  /** Recovery: log entries are copied back, newest first.  v is the word found after the crash. */
  ghost function Undone(tr: Trace, loc: Loc, v: Val): Val
    decreases |tr|
  {
    if tr == [] then v
    else
      var e := tr[|tr| - 1];
      Undone(tr[..|tr| - 1], loc, if e.Record? && loc in e.vals then e.vals[loc] else v)
  }

  ghost predicate Recorded(tr: Trace, loc: Loc) {
    exists i :: 0 <= i < |tr| && tr[i].Record? && loc in tr[i].vals
  }

  /** Undoing gives a recorded word the value of its first record, and leaves any other as it was found. */
  lemma {:induction false} UndoneIsFirst(tr: Trace, loc: Loc, v: Val, i: nat)
    requires i <= |tr| && forall j :: 0 <= j < i ==> !(tr[j].Record? && loc in tr[j].vals)
    ensures i == |tr| ==> Undone(tr, loc, v) == v
    ensures i < |tr| && tr[i].Record? && loc in tr[i].vals ==> Undone(tr, loc, v) == tr[i].vals[loc]
    decreases |tr|
  {
    if tr != [] {
      var before, e := tr[..|tr| - 1], tr[|tr| - 1];
      var w := if e.Record? && loc in e.vals then e.vals[loc] else v;
      if i < |tr| { UndoneIsFirst(before, loc, w, i); } else { UndoneIsFirst(before, loc, w, i - 1); }
    }
  }

  // ---------------------------------------------------------------- the tree as a crash must leave it

  /** A word that lookups from the root read or may read later.  The parent of the root, and entries
      that no slot refers to, are never read. */
  ghost predicate IsLive(nodes: Nodes, root: Ptr, loc: Loc) {
    && loc.n in nodes && Sized(nodes[loc.n])
    && match loc
       case SlotOf(_) => true
       case KeyAt(n, i) => 0 <= i < 7 && Used(nodes[n], i)
       case TidAt(n, i) => 0 <= i < 7 && Used(nodes[n], i)
       case LeftOf(_) => true
       case ParentOf(n) => n != root
       case FlagOf(_) => true
  }

  /** The logging rule: a live word is recorded before it is overwritten, with its first value. */
  ghost predicate Guarded(base: Nodes, root: Ptr, tr: Trace)
    decreases |tr|
  {
    tr == [] ||
    var before := tr[..|tr| - 1];
    && Guarded(base, root, before)
    && EventGuarded(base, root, before, tr[|tr| - 1])
  }

  ghost predicate EventGuarded(base: Nodes, root: Ptr, before: Trace, e: Event) {
    match e
    case Store(loc, _) => IsLive(base, root, loc) ==> Recorded(before, loc)
    case New(n, _) => n !in base
    case Flush(_) => true
    case Record(vals) => forall loc ::
        loc in vals && IsLive(base, root, loc) && !Recorded(before, loc) ==> vals[loc] == ValAt(base, loc)
  }

  /** A word not yet recorded has not been touched. */
  lemma {:induction false} Untouched(base: Nodes, root: Ptr, tr: Trace, loc: Loc)
    requires Guarded(base, root, tr) && IsLive(base, root, loc) && !Recorded(tr, loc)
    ensures Candidates(base, tr, loc) == {ValAt(base, loc)} && Latest(base, tr, loc) == ValAt(base, loc)
    decreases |tr|
  {
    if tr != [] {
      var before := tr[..|tr| - 1];
      RecordedLast(tr, loc);
      Untouched(base, root, before, loc);
    }
  }

  /** Undoing brings back the first recorded value. */
  lemma {:induction false} UndoneRecorded(base: Nodes, root: Ptr, tr: Trace, loc: Loc, v: Val)
    requires Guarded(base, root, tr) && IsLive(base, root, loc) && Recorded(tr, loc)
    ensures Undone(tr, loc, v) == ValAt(base, loc)
    decreases |tr|
  {
    var before := tr[..|tr| - 1];
    var e := tr[|tr| - 1];
    RecordedLast(tr, loc);
    if Recorded(before, loc) {
      UndoneRecorded(base, root, before, loc, if e.Record? && loc in e.vals then e.vals[loc] else v);
    } else {
      NotUndone(before, loc, e.vals[loc]);
    }
  }

  lemma {:induction false} NotUndone(tr: Trace, loc: Loc, v: Val)
    requires !Recorded(tr, loc)
    ensures Undone(tr, loc, v) == v
    decreases |tr|
  {
    if tr != [] {
      var before := tr[..|tr| - 1];
      RecordedLast(tr, loc);
      NotUndone(before, loc, v);
    }
  }

  /** At every crash point, whatever memory holds then, undoing the log gives back every live word
      of the tree as it was. */
  lemma {:induction false} UndoRestores(base: Nodes, root: Ptr, tr: Trace, k: nat, loc: Loc, v: Val)
    requires Guarded(base, root, tr) && k <= |tr|
    requires IsLive(base, root, loc) && v in Candidates(base, tr[..k], loc)
    ensures Undone(tr[..k], loc, v) == ValAt(base, loc)
  {
    GuardedPrefix(base, root, tr, k);
    if Recorded(tr[..k], loc) {
      UndoneRecorded(base, root, tr[..k], loc, v);
    } else {
      Untouched(base, root, tr[..k], loc);
      NotUndone(tr[..k], loc, v);
    }
  }

  lemma {:induction false} GuardedPrefix(base: Nodes, root: Ptr, tr: Trace, k: nat)
    requires Guarded(base, root, tr) && k <= |tr|
    ensures Guarded(base, root, tr[..k])
    decreases |tr|
  {
    if k == |tr| {
      assert tr[..k] == tr;
    } else {
      assert tr[..|tr| - 1][..k] == tr[..k];
      GuardedPrefix(base, root, tr[..|tr| - 1], k);
    }
  }

  // ---------------------------------------------------------------- what has been persisted

  /** The word has been flushed since it was last stored. */
  ghost predicate Clean(tr: Trace, loc: Loc)
    decreases |tr|
  {
    tr == [] ||
    var before := tr[..|tr| - 1];
    match tr[|tr| - 1]
    case Store(l, _) => l != loc && Clean(before, loc)
    case New(n, _) => n != loc.n && Clean(before, loc)
    case Flush(locs) => loc in locs || Clean(before, loc)
    case Record(_) => Clean(before, loc)
  }

  /** A clean word survives a crash. */
  lemma {:induction false} CleanSurvives(base: Nodes, tr: Trace, loc: Loc)
    requires Clean(tr, loc)
    ensures Candidates(base, tr, loc) == {Latest(base, tr, loc)}
    decreases |tr|
  {
    if tr != [] && !(tr[|tr| - 1].Flush? && loc in tr[|tr| - 1].locs) {
      CleanSurvives(base, tr[..|tr| - 1], loc);
    }
  }

  // ---------------------------------------------------------------- one event more

  lemma OneMore(base: Nodes, root: Ptr, tr: Trace, e: Event, loc: Loc)
    ensures Latest(base, tr + [e], loc) ==
      if e.Store? && e.loc == loc then e.v else if e.New? && e.n == loc.n then ValIn(e.node, loc)
          else Latest(base, tr, loc)
    ensures Clean(tr + [e], loc) <==>
      if e.Store? then e.loc != loc && Clean(tr, loc) else if e.New? then e.n != loc.n && Clean(tr, loc)
      else if e.Flush? then loc in e.locs || Clean(tr, loc) else Clean(tr, loc)
    ensures Recorded(tr + [e], loc) <==> Recorded(tr, loc) || (e.Record? && loc in e.vals)
  {
    assert (tr + [e])[..|tr|] == tr;
    RecordedMore(tr, e, loc);
  }

  lemma RecordedLast(tr: Trace, loc: Loc)
    requires tr != []
    ensures var e := tr[|tr| - 1]; Recorded(tr, loc) <==> Recorded(tr[..|tr| - 1], loc) || (e.Record? && loc in e.vals)
  {
    assert tr == tr[..|tr| - 1] + [tr[|tr| - 1]];
    RecordedMore(tr[..|tr| - 1], tr[|tr| - 1], loc);
  }

  lemma RecordedMore(tr: Trace, e: Event, loc: Loc)
    ensures Recorded(tr + [e], loc) <==> Recorded(tr, loc) || (e.Record? && loc in e.vals)
  {
    var all := tr + [e];
    assert forall i :: 0 <= i < |tr| ==> all[i] == tr[i];
    assert all[|tr|] == e;
    if Recorded(tr, loc) {
      var i :| 0 <= i < |tr| && tr[i].Record? && loc in tr[i].vals;
      assert all[i].Record? && loc in all[i].vals;
    }
  }

  lemma GuardedMore(base: Nodes, root: Ptr, tr: Trace, e: Event)
    requires Guarded(base, root, tr) && EventGuarded(base, root, tr, e)
    ensures Guarded(base, root, tr + [e])
  {
    assert (tr + [e])[..|tr|] == tr;
  }

  // ---------------------------------------------------------------- bookkeeping beside the program

  ghost predicate InNode(loc: Loc) {
    (loc.KeyAt? ==> 0 <= loc.i < 7) && (loc.TidAt? ==> 0 <= loc.i < 7)
  }

  ghost function NodeLocs(n: Ptr): (r: set<Loc>)
    ensures forall loc :: loc in r <==> loc.n == n && InNode(loc)
  {
    {SlotOf(n), LeftOf(n), ParentOf(n), FlagOf(n)}
    + {KeyAt(n, 0), KeyAt(n, 1), KeyAt(n, 2), KeyAt(n, 3), KeyAt(n, 4), KeyAt(n, 5), KeyAt(n, 6)}
    + {TidAt(n, 0), TidAt(n, 1), TidAt(n, 2), TidAt(n, 3), TidAt(n, 4), TidAt(n, 5), TidAt(n, 6)}
  }

  /** The trace explains memory, obeys the logging rule if the operation is a logged one, and only
      words in `dirty` await a flush. */
  ghost predicate Traced(base: Nodes, root: Ptr, tr: Trace, nodes: Nodes, dirty: set<Loc>, logged: bool) {
    && (forall n :: n in base ==> n in nodes)
    && (logged ==> Guarded(base, root, tr))
    && (forall loc: Loc :: loc.n in nodes && InNode(loc) ==> Latest(base, tr, loc) == ValAt(nodes, loc))
    && (forall loc :: InNode(loc) ==> Clean(tr, loc) || loc in dirty)
  }

  lemma TracedStart(nodes: Nodes, root: Ptr, logged: bool)
    ensures Traced(nodes, root, [], nodes, {}, logged)
  {
  }

  /** An event and its effect on memory. */
  ghost predicate Effect(e: Event, nodes: Nodes, nodes': Nodes) {
    match e
    case Store(loc, v) =>
      && loc.n in nodes && nodes'.Keys == nodes.Keys
      && (forall l: Loc :: l.n in nodes && InNode(l) ==> ValAt(nodes', l) == if l == loc then v else ValAt(nodes, l))
    case New(n, node) => n !in nodes && nodes' == nodes[n := node]
    case Flush(_) => nodes' == nodes
    case Record(vals) => nodes' == nodes && forall l :: l in vals ==>
        l.n in nodes && InNode(l) && vals[l] == ValAt(nodes, l)
  }

  ghost function DirtyAfter(dirty: set<Loc>, e: Event): set<Loc> {
    match e
    case Store(loc, _) => dirty + {loc}
    case New(n, _) => dirty + NodeLocs(n)
    case Flush(locs) => dirty - locs
    case Record(_) => dirty
  }

  /** One event keeps the books; a store to a live word must have been preceded by its record. */
  lemma TracedMore(base: Nodes, root: Ptr, tr: Trace, nodes: Nodes, dirty: set<Loc>, logged: bool, e: Event,
                   nodes': Nodes)
    requires Traced(base, root, tr, nodes, dirty, logged) && Effect(e, nodes, nodes')
    requires logged && e.Store? && IsLive(base, root, e.loc) ==> Recorded(tr, e.loc)
    ensures Traced(base, root, tr + [e], nodes', DirtyAfter(dirty, e), logged)
    ensures forall loc :: Recorded(tr, loc) ==> Recorded(tr + [e], loc)
    ensures e.Record? ==> forall loc :: loc in e.vals ==> Recorded(tr + [e], loc)
  {
    hide *;
    TracedParts(base, root, tr, nodes, dirty, logged);
    if logged { EventIsGuarded(base, root, tr, nodes, e, nodes'); }
    if logged { GuardedMore(base, root, tr, e); }
    forall loc: Loc
      ensures loc.n in nodes' && InNode(loc) ==> Latest(base, tr + [e], loc) == ValAt(nodes', loc)
      ensures InNode(loc) ==> Clean(tr + [e], loc) || loc in DirtyAfter(dirty, e)
      ensures Recorded(tr, loc) ==> Recorded(tr + [e], loc)
      ensures e.Record? && loc in e.vals ==> Recorded(tr + [e], loc)
    {
      OneMore(base, root, tr, e, loc);
      EffectAt(e, nodes, nodes', loc);
      DirtyAt(dirty, e, loc);
    }
    EffectKeeps(e, nodes, nodes');
    TracedIs(base, root, tr + [e], nodes', DirtyAfter(dirty, e), logged);
  }

  lemma TracedParts(base: Nodes, root: Ptr, tr: Trace, nodes: Nodes, dirty: set<Loc>, logged: bool)
    requires Traced(base, root, tr, nodes, dirty, logged)
    ensures (forall n :: n in base ==> n in nodes) && (logged ==> Guarded(base, root, tr))
    ensures forall loc: Loc :: loc.n in nodes && InNode(loc) ==> Latest(base, tr, loc) == ValAt(nodes, loc)
    ensures forall loc :: InNode(loc) ==> Clean(tr, loc) || loc in dirty
  {
    hide Guarded, Latest, Clean, InNode, ValAt;
  }

  lemma TracedIs(base: Nodes, root: Ptr, tr: Trace, nodes: Nodes, dirty: set<Loc>, logged: bool)
    requires (forall n :: n in base ==> n in nodes) && (logged ==> Guarded(base, root, tr))
    requires forall loc: Loc :: loc.n in nodes && InNode(loc) ==> Latest(base, tr, loc) == ValAt(nodes, loc)
    requires forall loc :: InNode(loc) ==> Clean(tr, loc) || loc in dirty
    ensures Traced(base, root, tr, nodes, dirty, logged)
  {
    hide Guarded, Latest, Clean, InNode, ValAt;
  }

  lemma EventIsGuarded(base: Nodes, root: Ptr, tr: Trace, nodes: Nodes, e: Event, nodes': Nodes)
    requires Guarded(base, root, tr) && Effect(e, nodes, nodes') && (forall n :: n in base ==> n in nodes)
    requires forall loc: Loc :: loc.n in nodes && InNode(loc) ==> Latest(base, tr, loc) == ValAt(nodes, loc)
    requires e.Store? && IsLive(base, root, e.loc) ==> Recorded(tr, e.loc)
    ensures EventGuarded(base, root, tr, e)
  {
    hide Guarded, Latest, Recorded, IsLive, ValAt, InNode;
    if e.Record? {
      forall loc | loc in e.vals && IsLive(base, root, loc) && !Recorded(tr, loc)
        ensures e.vals[loc] == ValAt(base, loc)
      {
        Untouched(base, root, tr, loc);
      }
    }
  }

  lemma EffectAt(e: Event, nodes: Nodes, nodes': Nodes, loc: Loc)
    requires Effect(e, nodes, nodes')
    ensures loc.n in nodes' && InNode(loc) ==>
      if e.Store? && e.loc == loc then ValAt(nodes', loc) == e.v
      else if e.New? && e.n == loc.n then ValAt(nodes', loc) == ValIn(e.node, loc)
      else loc.n in nodes && ValAt(nodes', loc) == ValAt(nodes, loc)
  {
  }

  lemma EffectKeeps(e: Event, nodes: Nodes, nodes': Nodes)
    requires Effect(e, nodes, nodes')
    ensures forall n :: n in nodes ==> n in nodes'
  {
  }

  lemma DirtyAt(dirty: set<Loc>, e: Event, loc: Loc)
    ensures InNode(loc) ==> (loc in DirtyAfter(dirty, e) <==>
      if e.Store? then loc == e.loc || loc in dirty else if e.New? then e.n == loc.n || loc in dirty
      else if e.Flush? then loc in dirty && loc !in e.locs else loc in dirty)
  {
  }

  // ---------------------------------------------------------------- what an operation promises

  /** Whatever a crash leaves at any point, undoing the log gives the old tree. */
  ghost predicate UndoSafe(base: Nodes, root: Ptr, tr: Trace) {
    forall k, loc, v :: 0 <= k <= |tr| && IsLive(base, root, loc) && v in Candidates(base, tr[..k], loc) ==>
      Undone(tr[..k], loc, v) == ValAt(base, loc)
  }

  /** At the end a crash leaves the new tree. */
  ghost predicate Persisted(base: Nodes, tr: Trace, nodes: Nodes, root: Ptr) {
    forall loc :: IsLive(nodes, root, loc) ==> Candidates(base, tr, loc) == {ValAt(nodes, loc)}
  }

  lemma TracedIsSafe(base: Nodes, root: Ptr, tr: Trace, nodes: Nodes, root': Ptr)
    requires Traced(base, root, tr, nodes, {}, true)
    ensures UndoSafe(base, root, tr) && Persisted(base, tr, nodes, root')
  {
    TracedPersists(base, root, tr, nodes, root', true);
    hide Guarded, Latest, Clean, Candidates, Undone;
    forall k, loc, v | 0 <= k <= |tr| && IsLive(base, root, loc) && v in Candidates(base, tr[..k], loc)
      ensures Undone(tr[..k], loc, v) == ValAt(base, loc)
    {
      UndoRestores(base, root, tr, k, loc, v);
    }
  }

  lemma TracedPersists(base: Nodes, root: Ptr, tr: Trace, nodes: Nodes, root': Ptr, logged: bool)
    requires Traced(base, root, tr, nodes, {}, logged)
    ensures Persisted(base, tr, nodes, root')
  {
    hide Guarded, Latest, Clean, Candidates;
    forall loc | IsLive(nodes, root', loc)
      ensures Candidates(base, tr, loc) == {ValAt(nodes, loc)}
    {
      CleanSurvives(base, tr, loc);
    }
  }

  // ---------------------------------------------------------------- one slot store

  /** Through these slots the leaf shows exactly these entries, whatever a crash leaves. */
  ghost predicate Shows(base: Nodes, tr: Trace, n: Ptr, slot: seq<int>, live: seq<Pair>) {
    && |slot| == 8 && slot[0] == |live| <= 7
    && forall j :: 0 <= j < |live| ==>
      && Candidates(base, tr, KeyAt(n, slot[j + 1])) == {Word(live[j].key)}
      && Candidates(base, tr, TidAt(n, slot[j + 1])) == {Word(live[j].tid)}
  }

  /** At every crash point the leaf n is found as it was or as it becomes, and nothing else differs. */
  ghost predicate LeafAtomic(base: Nodes, root: Ptr, tr: Trace, n: Ptr, node': Node) {
    && n in base && Sized(base[n]) && Sized(node')
    && (forall k, v :: 0 <= k <= |tr| && v in Candidates(base, tr[..k], SlotOf(n)) ==>
      || (v == Slots(base[n].slot) && Shows(base, tr[..k], n, base[n].slot, Live(base[n])))
      || (v == Slots(node'.slot) && Shows(base, tr[..k], n, node'.slot, Live(node'))))
    && (forall k, loc :: 0 <= k <= |tr| && IsLive(base, root, loc) && loc != SlotOf(n) ==>
      Candidates(base, tr[..k], loc) == {ValAt(base, loc)})
  }

  lemma CandidatesMore(base: Nodes, tr: Trace, e: Event, loc: Loc)
    ensures Candidates(base, tr + [e], loc) ==
      if e.Store? && e.loc == loc then Candidates(base, tr, loc) + {e.v}
      else if e.New? && e.n == loc.n then Candidates(base, tr, loc) + {ValIn(e.node, loc)}
      else if e.Flush? && loc in e.locs then {Latest(base, tr, loc)}
      else Candidates(base, tr, loc)
    ensures Latest(base, tr + [e], loc) ==
      if e.Store? && e.loc == loc then e.v else if e.New? && e.n == loc.n then ValIn(e.node, loc)
          else Latest(base, tr, loc)
  {
    var all := tr + [e];
    assert all[..|tr|] == tr && all[|tr|] == e;
  }

  /** The events of `Append`, its flush, the slot store and its flush. */
  function AppendTrace(n: Ptr, i: int, e: Pair, slot: seq<int>): Trace {
    [Store(KeyAt(n, i), Word(e.key)), Store(TidAt(n, i), Word(e.tid)), Event.Flush({KeyAt(n, i), TidAt(n, i)}),
     Store(SlotOf(n), Slots(slot)), Event.Flush({SlotOf(n)})]
  }

  /** What the words may be at each crash point of an append. */
  lemma AppendCandidates(base: Nodes, n: Ptr, i: int, e: Pair, slot: seq<int>, k: nat, loc: Loc)
    requires k <= 5
    ensures var tr := AppendTrace(n, i, e, slot);
      && (loc != KeyAt(n, i) && loc != TidAt(n, i) && loc != SlotOf(n)
         ==> Candidates(base, tr[..k], loc) == {ValAt(base, loc)})
      && (k >= 3 ==> Candidates(base, tr[..k], KeyAt(n, i)) == {Word(e.key)}
                     && Candidates(base, tr[..k], TidAt(n, i)) == {Word(e.tid)})
      && (k <= 3 ==> Candidates(base, tr[..k], SlotOf(n)) == {ValAt(base, SlotOf(n))})
      && (k == 4 ==> Candidates(base, tr[..k], SlotOf(n)) == {ValAt(base, SlotOf(n)), Slots(slot)})
      && (k == 5 ==> Candidates(base, tr[..k], SlotOf(n)) == {Slots(slot)})
    decreases k
  {
    hide *;
    var tr := AppendTrace(n, i, e, slot);
    AppendEvents(n, i, e, slot);
    if k == 0 {
      assert tr[..0] == [];
      NoEvents(base, loc);
      NoEvents(base, SlotOf(n));
    } else {
      AppendCandidates(base, n, i, e, slot, k - 1, loc);
      AppendLatest(base, n, i, e, slot);
      assert tr[..k] == tr[..k - 1] + [tr[k - 1]];
      CandidatesMore(base, tr[..k - 1], tr[k - 1], loc);
      CandidatesMore(base, tr[..k - 1], tr[k - 1], SlotOf(n));
      CandidatesMore(base, tr[..k - 1], tr[k - 1], KeyAt(n, i));
      CandidatesMore(base, tr[..k - 1], tr[k - 1], TidAt(n, i));
    }
  }

  lemma AppendEvents(n: Ptr, i: int, e: Pair, slot: seq<int>)
    ensures var tr := AppendTrace(n, i, e, slot);
      && |tr| == 5 && tr[0] == Store(KeyAt(n, i), Word(e.key)) && tr[1] == Store(TidAt(n, i), Word(e.tid))
      && tr[2] == Event.Flush({KeyAt(n, i), TidAt(n, i)}) && tr[3] == Store(SlotOf(n), Slots(slot))
         && tr[4] == Event.Flush({SlotOf(n)})
  {
  }

  lemma NoEvents(base: Nodes, loc: Loc)
    ensures Candidates(base, [], loc) == {ValAt(base, loc)} && Latest(base, [], loc) == ValAt(base, loc)
  {
  }

  lemma AppendLatest(base: Nodes, n: Ptr, i: int, e: Pair, slot: seq<int>)
    ensures var tr := AppendTrace(n, i, e, slot);
      && |tr| == 5 && Latest(base, tr[..2], KeyAt(n, i)) == Word(e.key)
         && Latest(base, tr[..2], TidAt(n, i)) == Word(e.tid)
      && Latest(base, tr[..4], SlotOf(n)) == Slots(slot)
  {
    var tr := AppendTrace(n, i, e, slot);
    assert tr[..2] == [tr[0]] + [tr[1]] && tr[..4] == tr[..3] + [tr[3]];
    CandidatesMore(base, [tr[0]], tr[1], KeyAt(n, i));
    CandidatesMore(base, [tr[0]], tr[1], TidAt(n, i));
    CandidatesMore(base, tr[..3], tr[3], SlotOf(n));
    assert [tr[0]] == [] + [tr[0]];
    CandidatesMore(base, [], tr[0], KeyAt(n, i));
  }

  /** An append is atomic: the entry is persistent before the slot array that shows it. */
  lemma AppendIsAtomic(base: Nodes, root: Ptr, n: Ptr, i: int, e: Pair, node': Node)
    requires n in base && NodeOk(base[n]) && 0 <= i < 7 && !Used(base[n], i) && NodeOk(node')
    requires node'.entries == base[n].entries[i := e]
    requires forall j :: 1 <= j <= node'.slot[0] ==> node'.slot[j] == i || Used(base[n], node'.slot[j])
    ensures LeafAtomic(base, root, AppendTrace(n, i, e, node'.slot), n, node')
    ensures Persisted(base, AppendTrace(n, i, e, node'.slot),
      base[n := base[n].(slot := node'.slot, entries := node'.entries)], root)
  {
    hide Candidates, Used, Distinct, Strict;
    var tr := AppendTrace(n, i, e, node'.slot);
    forall k, loc | 0 <= k <= |tr| && IsLive(base, root, loc) && loc != SlotOf(n)
      ensures Candidates(base, tr[..k], loc) == {ValAt(base, loc)}
    {
      AppendCandidates(base, n, i, e, node'.slot, k, loc);
    }
    forall k, v | 0 <= k <= |tr| && v in Candidates(base, tr[..k], SlotOf(n))
      ensures (v == Slots(base[n].slot) && Shows(base, tr[..k], n, base[n].slot, Live(base[n])))
           || (v == Slots(node'.slot) && Shows(base, tr[..k], n, node'.slot, Live(node')))
    {
      AppendCandidates(base, n, i, e, node'.slot, k, SlotOf(n));
      if v == Slots(base[n].slot) { OldShows(base, n, i, e, node'.slot, k); }
      if k >= 4 && v == Slots(node'.slot) { NewShows(base, n, i, e, node', k); }
    }
    AppendPersisted(base, root, n, i, e, node');
  }

  lemma UsedAt(n: Node, j: int)
    requires Sized(n) && 1 <= j <= n.slot[0]
    ensures Used(n, n.slot[j])
  {
  }

  lemma OldShows(base: Nodes, n: Ptr, i: int, e: Pair, slot: seq<int>, k: nat)
    requires n in base && Sized(base[n]) && !Used(base[n], i) && k <= 5
    ensures Shows(base, AppendTrace(n, i, e, slot)[..k], n, base[n].slot, Live(base[n]))
  {
    hide Candidates, Used;
    var node := base[n];
    forall j | 0 <= j < node.slot[0]
      ensures Candidates(base, AppendTrace(n, i, e, slot)[..k], KeyAt(n, node.slot[j + 1])) == {Word(Live(node)[j].key)}
      ensures Candidates(base, AppendTrace(n, i, e, slot)[..k], TidAt(n, node.slot[j + 1])) == {Word(Live(node)[j].tid)}
    {
      UsedAt(node, j + 1);
      AppendCandidates(base, n, i, e, slot, k, KeyAt(n, node.slot[j + 1]));
      AppendCandidates(base, n, i, e, slot, k, TidAt(n, node.slot[j + 1]));
    }
  }

  lemma NewShows(base: Nodes, n: Ptr, i: int, e: Pair, node': Node, k: nat)
    requires n in base && Sized(base[n]) && Sized(node') && 3 <= k <= 5 && 0 <= i < 7
    requires node'.entries == base[n].entries[i := e]
    ensures Shows(base, AppendTrace(n, i, e, node'.slot)[..k], n, node'.slot, Live(node'))
  {
    hide Candidates, Used;
    var tr := AppendTrace(n, i, e, node'.slot)[..k];
    forall j | 0 <= j < node'.slot[0]
      ensures Candidates(base, tr, KeyAt(n, node'.slot[j + 1])) == {Word(Live(node')[j].key)}
      ensures Candidates(base, tr, TidAt(n, node'.slot[j + 1])) == {Word(Live(node')[j].tid)}
    {
      AppendCandidates(base, n, i, e, node'.slot, k, KeyAt(n, node'.slot[j + 1]));
      AppendCandidates(base, n, i, e, node'.slot, k, TidAt(n, node'.slot[j + 1]));
    }
  }

  lemma AppendPersisted(base: Nodes, root: Ptr, n: Ptr, i: int, e: Pair, node': Node)
    requires n in base && Sized(base[n]) && Sized(node') && 0 <= i < 7 && node'.entries == base[n].entries[i := e]
    ensures Persisted(base, AppendTrace(n, i, e, node'.slot),
      base[n := base[n].(slot := node'.slot, entries := node'.entries)], root)
  {
    hide Candidates, Used;
    var tr := AppendTrace(n, i, e, node'.slot);
    var nodes := base[n := base[n].(slot := node'.slot, entries := node'.entries)];
    assert tr[..5] == tr;
    forall loc | IsLive(nodes, root, loc)
      ensures Candidates(base, tr, loc) == {ValAt(nodes, loc)}
    {
      AppendCandidates(base, n, i, e, node'.slot, 5, loc);
    }
  }

  // ---------------------------------------------------------------- one word

  /** A single store and its flush: the word is found old or new, and new at the end. */
  lemma StoreAndFlush(base: Nodes, loc: Loc, v: Val, k: nat, l: Loc)
    requires k <= 2
    ensures var tr := [Store(loc, v), Event.Flush({loc})];
      && (l != loc ==> Candidates(base, tr[..k], l) == {ValAt(base, l)})
      && Candidates(base, tr[..k], loc) <= {ValAt(base, loc), v}
      && (k == 2 ==> Candidates(base, tr[..k], loc) == {v})
  {
    hide *;
    var tr := [Store(loc, v), Event.Flush({loc})];
    assert tr[..0] == [] && tr[..1] == [] + [tr[0]] && tr[..2] == tr[..1] + [tr[1]];
    NoEvents(base, l);
    NoEvents(base, loc);
    CandidatesMore(base, [], tr[0], l);
    CandidatesMore(base, [], tr[0], loc);
    CandidatesMore(base, tr[..1], tr[1], l);
    CandidatesMore(base, tr[..1], tr[1], loc);
  }

  /** Withdrawing an entry is atomic. */
  lemma RemovalIsAtomic(base: Nodes, root: Ptr, n: Ptr, slot: seq<int>)
    requires n in base && NodeOk(base[n]) && NodeOk(base[n].(slot := slot))
    ensures var tr := [Store(SlotOf(n), Slots(slot)), Event.Flush({SlotOf(n)})];
      LeafAtomic(base, root, tr, n, base[n].(slot := slot))
          && Persisted(base, tr, base[n := base[n].(slot := slot)], root)
  {
    hide Candidates, Used, Distinct, Strict;
    var tr := [Store(SlotOf(n), Slots(slot)), Event.Flush({SlotOf(n)})];
    var node' := base[n].(slot := slot);
    var nodes := base[n := node'];
    forall k, loc | 0 <= k <= |tr| && loc != SlotOf(n)
      ensures Candidates(base, tr[..k], loc) == {ValAt(base, loc)}
    {
      StoreAndFlush(base, SlotOf(n), Slots(slot), k, loc);
    }
    forall k, v | 0 <= k <= |tr| && v in Candidates(base, tr[..k], SlotOf(n))
      ensures v == Slots(base[n].slot) || v == Slots(slot)
    {
      StoreAndFlush(base, SlotOf(n), Slots(slot), k, SlotOf(n));
    }
    assert tr[..2] == tr;
    forall loc | IsLive(nodes, root, loc)
      ensures Candidates(base, tr, loc) == {ValAt(nodes, loc)}
    {
      StoreAndFlush(base, SlotOf(n), Slots(slot), 2, loc);
    }
    forall k | 0 <= k <= |tr|
      ensures Shows(base, tr[..k], n, base[n].slot, Live(base[n])) && Shows(base, tr[..k], n, slot, Live(node'))
    {
      EntriesUntouched(base, tr[..k], n, base[n]);
      EntriesUntouched(base, tr[..k], n, node');
    }
  }

  lemma EntriesUntouched(base: Nodes, tr: Trace, n: Ptr, node: Node)
    requires n in base && Sized(base[n]) && Sized(node) && node.entries == base[n].entries
    requires forall loc: Loc :: loc != SlotOf(n) ==> Candidates(base, tr, loc) == {ValAt(base, loc)}
    ensures Shows(base, tr, n, node.slot, Live(node))
  {
    hide Candidates;
    forall j | 0 <= j < node.slot[0]
      ensures Candidates(base, tr, KeyAt(n, node.slot[j + 1])) == {Word(Live(node)[j].key)}
      ensures Candidates(base, tr, TidAt(n, node.slot[j + 1])) == {Word(Live(node)[j].tid)}
    {
    }
  }
}
