/** The doubly linked list of leaves when a group of leaves moves or splits. */
module CsbLinks {
  import opened CsbShape
  import opened CsbCells

  type Links = map<Ptr, Ptr>

  /** The leaves are distinct and linked in this order, both ways. */
  ghost predicate Linked(next: Links, prev: Links, leaves: seq<Ptr>) {
    && Distinct(leaves)
    && (forall i :: 0 <= i < |leaves| ==> leaves[i] in next && leaves[i] in prev)
    && (forall i :: 0 <= i < |leaves| ==> next[leaves[i]] == NextOf(leaves, i))
    && (forall i :: 0 <= i < |leaves| ==> prev[leaves[i]] == PrevOf(leaves, i))
  }

  ghost predicate Distinct(leaves: seq<Ptr>) {
    && (forall i, j :: 0 <= i < j < |leaves| ==> leaves[i] != leaves[j])
    && forall i :: 0 <= i < |leaves| ==> leaves[i] != NULL
  }

  ghost function NextOf(leaves: seq<Ptr>, i: nat): Ptr {
    if i + 1 < |leaves| then leaves[i + 1] else NULL
  }

  ghost function PrevOf(leaves: seq<Ptr>, i: nat): Ptr {
    if 0 < i <= |leaves| then leaves[i - 1] else NULL
  }

  /** Locations of a group with one kid more: a new group, or, when it would have sixteen, the
      first eight cells of the old group and a new group of eight. */
  function Places(first: Ptr, newGroup: Ptr, n: nat): (r: seq<Ptr>)
    requires n <= 15
    ensures |r| == n + 1
    ensures forall j :: 0 <= j <= n ==> r[j] == PlaceAt(first, newGroup, n, j)
  {
    if n < 15 then Run(newGroup, n + 1) else Run(first, 8) + Run(newGroup, 8)
  }

  function PlaceAt(first: Ptr, newGroup: Ptr, n: nat, j: nat): Ptr {
    if n < 15 then Slot(newGroup, j) else if j < 8 then Slot(first, j) else Slot(newGroup, j - 8)
  }

  /** Some leaves in a row, with the leaves before and after them. */
  ghost predicate Chain(next: Links, prev: Links, before: Ptr, row: seq<Ptr>, after: Ptr) {
    && (forall k :: 0 <= k < |row| ==> row[k] in next && row[k] in prev)
    && (forall k :: 0 <= k < |row| - 1 ==> next[row[k]] == row[k + 1])
    && (row != [] ==> next[row[|row| - 1]] == after)
    && (forall k :: 0 < k < |row| ==> prev[row[k]] == row[k - 1])
    && (row != [] ==> prev[row[0]] == before)
  }

  function LastOf(s: seq<Ptr>): Ptr {
    if s == [] then NULL else s[|s| - 1]
  }

  function FirstOf(s: seq<Ptr>): Ptr {
    if s == [] then NULL else s[0]
  }

  /** A list cut around a group of leaves. */
  lemma LinkedIsThreeChains(next: Links, prev: Links, pre: seq<Ptr>, group: seq<Ptr>, post: seq<Ptr>)
    requires group != []
    ensures Linked(next, prev, pre + group + post) <==>
      && Distinct(pre + group + post)
      && Chain(next, prev, NULL, pre, group[0])
      && Chain(next, prev, LastOf(pre), group, FirstOf(post))
      && Chain(next, prev, LastOf(group), post, NULL)
  {
    hide Distinct, Linked, Chain;
    var all := pre + group + post;
    LinkedIsChain(next, prev, all);
    ChainCut(next, prev, NULL, pre + group, post, NULL);
    ChainCut(next, prev, NULL, pre, group, FirstOf(post));
    assert LastOf(pre + group) == LastOf(group);
    assert FirstOf(group) == group[0];
  }

  lemma LinkedIsChain(next: Links, prev: Links, all: seq<Ptr>)
    ensures Linked(next, prev, all) <==> Distinct(all) && Chain(next, prev, NULL, all, NULL)
  {
    hide Distinct;
  }

  lemma ChainCut(next: Links, prev: Links, before: Ptr, a: seq<Ptr>, b: seq<Ptr>, after: Ptr)
    ensures Chain(next, prev, before, a + b, after) <==>
      && Chain(next, prev, before, a, if b == [] then after else b[0])
      && Chain(next, prev, if a == [] then before else LastOf(a), b, after)
  {
    var all := a + b;
    assert forall k :: 0 <= k < |a| ==> all[k] == a[k];
    assert forall k :: 0 <= k < |b| ==> b[k] == all[|a| + k];
    if Chain(next, prev, before, all, after) {
      ChainCutForward(next, prev, before, a, b, after);
    }
    if Chain(next, prev, before, a, if b == [] then after else b[0])
        && Chain(next, prev, if a == [] then before else LastOf(a), b, after) {
      ChainCutBack(next, prev, before, a, b, after);
    }
  }

  lemma ChainCutForward(next: Links, prev: Links, before: Ptr, a: seq<Ptr>, b: seq<Ptr>, after: Ptr)
    requires Chain(next, prev, before, a + b, after)
    ensures Chain(next, prev, before, a, if b == [] then after else b[0])
    ensures Chain(next, prev, if a == [] then before else LastOf(a), b, after)
  {
    var all := a + b;
    assert forall k :: 0 <= k < |a| ==> a[k] == all[k];
    assert forall k :: 0 <= k < |b| ==> b[k] == all[|a| + k];
  }

  lemma ChainCutBack(next: Links, prev: Links, before: Ptr, a: seq<Ptr>, b: seq<Ptr>, after: Ptr)
    requires Chain(next, prev, before, a, if b == [] then after else b[0])
    requires Chain(next, prev, if a == [] then before else LastOf(a), b, after)
    ensures Chain(next, prev, before, a + b, after)
  {
    var all := a + b;
    forall k | 0 <= k < |all|
      ensures all[k] in next && all[k] in prev
      ensures next[all[k]] == if k < |all| - 1 then all[k + 1] else after
      ensures prev[all[k]] == if k > 0 then all[k - 1] else before
    {
      if k < |a| { assert all[k] == a[k]; } else { assert all[k] == b[k - |a|]; }
    }
  }

  /** The list is still one without repetition when the group takes new places. */
  lemma DistinctMoved(pre: seq<Ptr>, old': seq<Ptr>, new': seq<Ptr>, post: seq<Ptr>, used: set<Ptr>)
    requires Distinct(pre + old' + post) && NewPlaces(old', new', used)
    requires forall p :: p in pre || p in old' || p in post ==> p in used
    ensures Distinct(pre + new' + post)
  {
    var was, all := pre + old' + post, pre + new' + post;
    assert forall i :: 0 <= i < |pre| ==> was[i] == pre[i];
    assert forall i :: 0 <= i < |old'| ==> was[|pre| + i] == old'[i];
    assert forall i :: 0 <= i < |post| ==> was[|pre| + |old'| + i] == post[i];
    forall i | 0 <= i < |pre| ensures pre[i] !in old' && pre[i] in used && pre[i] !in post {}
    forall i | 0 <= i < |post| ensures post[i] !in old' && post[i] in used {}
    forall i, j | 0 <= i < j < |all|
      ensures all[i] != all[j]
    {
      if i < |pre| {
        assert all[i] == pre[i];
        if j < |pre| { assert all[j] == pre[j]; } else if j < |pre| + |new'| { assert all[j] == new'[j - |pre|]; }
      } else if i < |pre| + |new'| {
        assert all[i] == new'[i - |pre|];
        if j < |pre| + |new'| { assert all[j] == new'[j - |pre|]; }
      } else {
        assert all[i] == post[i - |pre| - |new'|];
      }
    }
  }

  /** Pointing the neighbours of a linked group at its ends completes the list. */
  lemma Rewire(next: Links, prev: Links, next': Links, prev': Links, pre: seq<Ptr>, h: Ptr, group: seq<Ptr>, l: Ptr,
               post: seq<Ptr>)
    requires group != [] && Distinct(pre + group + post)
    requires Chain(next, prev, NULL, pre, h) && Chain(next, prev, l, post, NULL)
    requires Chain(next, prev, LastOf(pre), group, FirstOf(post))
    requires next' == if pre == [] then next else next[LastOf(pre) := group[0]]
    requires prev' == if post == [] then prev else prev[post[0] := LastOf(group)]
    ensures Linked(next', prev', pre + group + post)
  {
    DistinctParts(pre, group, post);
    hide Distinct, Chain;
    ChainNewAfter(next, prev, next', NULL, pre, h, group[0]);
    ChainSame(next', prev, next', prev', NULL, pre, group[0]);
    ChainSame(next, prev, next', prev', LastOf(pre), group, FirstOf(post));
    ChainNewBefore(next, prev, prev', l, LastOf(group), post, NULL);
    ChainSame(next, prev', next', prev', LastOf(group), post, NULL);
    LinkedIsThreeChains(next', prev', pre, group, post);
  }

  lemma ChainSame(next: Links, prev: Links, next': Links, prev': Links, before: Ptr, row: seq<Ptr>, after: Ptr)
    requires Chain(next, prev, before, row, after)
    requires forall p :: p in row ==> p in next ==> p in next' && next'[p] == next[p]
    requires forall p :: p in row ==> p in prev ==> p in prev' && prev'[p] == prev[p]
    ensures Chain(next', prev', before, row, after)
  {
    forall k | 0 <= k < |row|
      ensures row[k] in next' && row[k] in prev' && next'[row[k]] == next[row[k]] && prev'[row[k]] == prev[row[k]]
    {
      assert row[k] in next;
    }
  }

  lemma ChainNewAfter(next: Links, prev: Links, next': Links, before: Ptr, row: seq<Ptr>, after: Ptr, after': Ptr)
    requires Chain(next, prev, before, row, after) && Distinct(row)
    requires next' == if row == [] then next else next[LastOf(row) := after']
    ensures Chain(next', prev, before, row, after')
  {
  }

  lemma ChainNewBefore(next: Links, prev: Links, prev': Links, before: Ptr, before': Ptr, row: seq<Ptr>, after: Ptr)
    requires Chain(next, prev, before, row, after) && Distinct(row)
    requires prev' == if row == [] then prev else prev[row[0] := before']
    ensures Chain(next, prev', before', row, after)
  {
  }

  lemma DistinctParts(pre: seq<Ptr>, group: seq<Ptr>, post: seq<Ptr>)
    requires Distinct(pre + group + post)
    ensures Distinct(pre) && Distinct(group) && Distinct(post)
    ensures forall p :: p in pre ==> p !in group && p !in post
    ensures forall p :: p in group ==> p !in post
    ensures forall p :: p in pre || p in group || p in post ==> p != NULL
  {
    var all := pre + group + post;
    assert forall i :: 0 <= i < |pre| ==> pre[i] == all[i];
    assert forall i :: 0 <= i < |group| ==> group[i] == all[|pre| + i];
    assert forall i :: 0 <= i < |post| ==> post[i] == all[|pre| + |group| + i];
  }
}
