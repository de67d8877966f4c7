/** consolidate (internal.go:22-57) on the arena: roots of equal degree are
    linked until no two roots share a degree. `slots` is the heap's
    `treeDegrees` table, degree -> root; a nil entry is an absent key. */
module Consolidation {
  import opened Util
  import opened Keys
  import opened Forests

  /** Every filled slot names a root whose `position` records that slot
      (the table between operations: entries may be stale in degree but
      never name a non-root). */
  ghost predicate SlotsOk<T>(nodes: seq<Node<T>>, roots: seq<nat>, slots: map<nat, nat>) {
    forall d :: d in slots ==> slots[d] in roots && slots[d] < |nodes| && nodes[slots[d]].position == d
  }

  /** Every filled slot d names a root of degree d that records d. */
  ghost predicate SlotsByDegree<T>(nodes: seq<Node<T>>, roots: seq<nat>, slots: map<nat, nat>) {
    forall d :: d in slots ==>
      slots[d] in roots && slots[d] < |nodes| && nodes[slots[d]].degree == d && nodes[slots[d]].position == d
  }

  /** x is the root filed under its own degree. */
  ghost predicate InSlot<T>(nodes: seq<Node<T>>, slots: map<nat, nat>, x: nat) {
    x < |nodes| && nodes[x].degree in slots && slots[nodes[x].degree] == x
  }

  /** Each root filed under its own degree: no two roots share a degree. */
  lemma AllSlottedDistinctDegrees<T>(nodes: seq<Node<T>>, roots: seq<nat>, slots: map<nat, nat>)
    requires Distinct(roots) && forall k :: 0 <= k < |roots| ==> roots[k] < |nodes|
    requires forall k :: 0 <= k < |roots| ==> InSlot(nodes, slots, roots[k])
    ensures forall i, j :: 0 <= i < j < |roots| ==> nodes[roots[i]].degree != nodes[roots[j]].degree
  {
    forall i, j | 0 <= i < j < |roots| ensures nodes[roots[i]].degree != nodes[roots[j]].degree {
      assert InSlot(nodes, slots, roots[i]) && InSlot(nodes, slots, roots[j]);
    }
  }

  /** Taking root j off the list and putting it back at the end keeps the forest. */
  lemma DetachRoot<T(!new)>(nodes: seq<Node<T>>, index: map<T, nat>, roots: seq<nat>, rank: seq<nat>, j: nat)
    requires Forest(nodes, index, roots, rank, {}) && j < |roots|
    ensures roots[j] !in RemoveAt(roots, j)
    ensures forall y :: y in RemoveAt(roots, j) <==> y in roots && y != roots[j]
    ensures Forest(nodes, index, RemoveAt(roots, j) + [roots[j]], rank, {})
  {
    var r := RemoveAt(roots, j);
    DistinctAppend(r, roots[j]);
    RootsPermKeepsForest(nodes, index, roots, r + [roots[j]], rank, {});
  }

  /** Root g leaves the list and becomes a child of root s (internal.go:44-48). */
  lemma LinkRootKeepsForest<T(!new)>(nodes: seq<Node<T>>, index: map<T, nat>, roots: seq<nat>, rank: seq<nat>,
                                     s: nat, g: nat)
    requires Forest(nodes, index, roots, rank, {}) && s < |roots| && g < |roots| && s != g
    requires roots[s] < |nodes| && roots[g] < |nodes| && Le(nodes[roots[s]].key, nodes[roots[g]].key)
    ensures Forest(LinkAt(nodes, roots[s], roots[g]), index, RemoveAt(roots, g),
                   rank[roots[s] := Max(rank[roots[s]], rank[roots[g]] + 1)], {})
  {
    DetachRoot(nodes, index, roots, rank, g);
    assert roots[s] in RemoveAt(roots, g);
    LinkKeepsForest(nodes, index, RemoveAt(roots, g), rank, roots[s], roots[g]);
  }

  /** `x` records the slot of its own degree (internal.go:30, 53): afterwards
      x's position names the slot its degree selects, and neither the forest's
      shape, nor its entries, nor any other node's recorded slot changes. */
  function RecordPosition<T>(nodes: seq<Node<T>>, x: nat): (r: seq<Node<T>>)
    requires x < |nodes|
    ensures |r| == |nodes| && r[x].position == r[x].degree
    ensures SameEntries(nodes, r)
    ensures forall y: nat :: y < |nodes| ==> SameShape(nodes[y], r[y])
    ensures forall y: nat :: y < |nodes| && y != x ==> r[y].position == nodes[y].position
    ensures forall y: nat :: y < |nodes| ==> r[y].marked == nodes[y].marked
  {
    nodes[x := nodes[x].(position := nodes[x].degree)]
  }

  /** Filing root i in the empty slot of its degree puts it in its slot and
      leaves every other root in or out of its slot as it was. */
  lemma Place<T(!new)>(nodes: seq<Node<T>>, index: map<T, nat>, roots: seq<nat>, rank: seq<nat>,
                       slots: map<nat, nat>, i: nat)
    requires Forest(nodes, index, roots, rank, {}) && i < |roots| && roots[i] < |nodes|
    requires SlotsByDegree(nodes, roots, slots)
    requires nodes[roots[i]].degree !in slots
    ensures Forest(RecordPosition(nodes, roots[i]), index, roots, rank, {})
    ensures SameEntries(nodes, RecordPosition(nodes, roots[i]))
    ensures SlotsByDegree(RecordPosition(nodes, roots[i]), roots, slots[nodes[roots[i]].degree := roots[i]])
    ensures InSlot(RecordPosition(nodes, roots[i]), slots[nodes[roots[i]].degree := roots[i]], roots[i])
    ensures forall k :: 0 <= k < |roots| && k != i ==>
      (InSlot(RecordPosition(nodes, roots[i]), slots[nodes[roots[i]].degree := roots[i]], roots[k]) <==>
       InSlot(nodes, slots, roots[k]))
  {
    var x := roots[i];
    var nodes' := RecordPosition(nodes, x);
    ReshapeKeepsForest(nodes, nodes', index, roots, rank, {});
    forall k | 0 <= k < |roots| && k != i
      ensures InSlot(nodes', slots[nodes[x].degree := x], roots[k]) <==> InSlot(nodes, slots, roots[k])
    {
      assert roots[k] != x;
    }
  }

  /** One pass of consolidate's inner loop (internal.go:41-50): the tree and the
      root filed under its degree are linked, the larger key below the smaller
      (the tree stays on top on a tie), and the slot is emptied. */
  method Merge<T(!new)>(nodes: seq<Node<T>>, index: map<T, nat>, roots: seq<nat>, slots: map<nat, nat>,
                        ghost rank: seq<nat>, tree: nat, i: nat, ghost f: nat)
    returns (nodes': seq<Node<T>>, roots': seq<nat>, slots': map<nat, nat>, ghost rank': seq<nat>,
             tree': nat, i': nat, ghost f': nat)
    requires Forest(nodes, index, roots, rank, {})
    requires i < f <= |roots| && roots[i] == tree && tree < |nodes|
    requires SlotsByDegree(nodes, roots, slots) && nodes[tree].degree in slots
    requires forall d :: d in slots ==> slots[d] != tree
    requires forall k :: 0 <= k < f && k != i ==> InSlot(nodes, slots, roots[k])
    requires forall k :: f <= k < |roots| ==> !InSlot(nodes, slots, roots[k])
    ensures var another := slots[nodes[tree].degree];
      tree' == (if Le(nodes[tree].key, nodes[another].key) then tree else another) &&
      tree' != (if tree' == tree then another else tree) &&
      nodes' == LinkAt(nodes, tree', if tree' == tree then another else tree) &&
      slots' == slots - {nodes[tree].degree}
    ensures Forest(nodes', index, roots', rank', {}) && SameEntries(nodes, nodes')
    ensures i' < f' <= |roots'| && roots'[i'] == tree' && tree' < |nodes'|
    ensures SlotsByDegree(nodes', roots', slots')
    ensures forall d :: d in slots' ==> slots'[d] != tree'
    ensures forall k :: 0 <= k < f' && k != i' ==> InSlot(nodes', slots', roots'[k])
    ensures forall k :: f' <= k < |roots'| ==> !InSlot(nodes', slots', roots'[k])
    ensures |roots'| == |roots| - 1
  {
    var d := nodes[tree].degree;
    var another := slots[d];
    var j := IndexOf(roots, another);
    assert InSlot(nodes, slots, another);
    assert j < f && j != i;
    var (s, g) := Survivor(nodes, roots, i, j);
    MergeKeepsForest(nodes, index, roots, rank, i, j, s, g);
    MergeSlots(nodes, roots, slots, i, j, f, s, g);
    slots' := slots - {d};
    roots' := RemoveAt(roots, g);
    nodes' := LinkAt(nodes, roots[s], roots[g]);
    rank' := rank[roots[s] := Max(rank[roots[s]], rank[roots[g]] + 1)];
    tree' := roots[s];
    i' := if g < s then s - 1 else s;
    f' := f - 1;
  }

  /** The positions of the root that stays on the list and of the root linked
      below it, for the roots at i and j: the smaller key stays, the root at i
      on a tie (internal.go:44). */
  function Survivor<T>(nodes: seq<Node<T>>, roots: seq<nat>, i: nat, j: nat): (r: (nat, nat))
    requires i < |roots| && j < |roots| && roots[i] < |nodes| && roots[j] < |nodes|
    ensures r == (i, j) || r == (j, i)
    ensures Le(nodes[roots[r.0]].key, nodes[roots[r.1]].key)
    ensures r.0 == i || Less(nodes[roots[j]].key, nodes[roots[i]].key)
  {
    LeTotalOrder(nodes[roots[i]].key, nodes[roots[j]].key, nodes[roots[i]].key);
    if Le(nodes[roots[i]].key, nodes[roots[j]].key) then (i, j) else (j, i)
  }

  /** Linking the two roots as Survivor orders them keeps the forest and its entries. */
  lemma MergeKeepsForest<T(!new)>(nodes: seq<Node<T>>, index: map<T, nat>, roots: seq<nat>, rank: seq<nat>,
                                  i: nat, j: nat, s: nat, g: nat)
    requires Forest(nodes, index, roots, rank, {})
    requires i < |roots| && j < |roots| && i != j && roots[i] < |nodes| && roots[j] < |nodes|
    requires (s, g) == Survivor(nodes, roots, i, j)
    ensures Forest(LinkAt(nodes, roots[s], roots[g]), index, RemoveAt(roots, g),
                   rank[roots[s] := Max(rank[roots[s]], rank[roots[g]] + 1)], {})
    ensures SameEntries(nodes, LinkAt(nodes, roots[s], roots[g]))
  {
    LinkRootKeepsForest(nodes, index, roots, rank, s, g);
  }

  /** The slot bookkeeping of one merge: the table, the roots before the
      frontier and the roots after it, for the roots as Survivor orders them. */
  lemma MergeSlots<T>(nodes: seq<Node<T>>, roots: seq<nat>, slots: map<nat, nat>, i: nat, j: nat, f: nat,
                      s: nat, g: nat)
    requires Distinct(roots) && i < f <= |roots| && j < f && i != j
    requires roots[i] < |nodes| && roots[j] < |nodes|
    requires (s, g) == Survivor(nodes, roots, i, j)
    requires SlotsByDegree(nodes, roots, slots)
    requires nodes[roots[i]].degree in slots && slots[nodes[roots[i]].degree] == roots[j]
    requires forall d :: d in slots ==> slots[d] != roots[i]
    requires forall k :: 0 <= k < f && k != i ==> InSlot(nodes, slots, roots[k])
    requires forall k :: f <= k < |roots| ==> !InSlot(nodes, slots, roots[k])
    ensures var nodes', roots', slots', i' := LinkAt(nodes, roots[s], roots[g]), RemoveAt(roots, g),
        slots - {nodes[roots[i]].degree}, if g < s then s - 1 else s;
      i' < f - 1 && roots'[i'] == roots[s] &&
      SlotsByDegree(nodes', roots', slots') &&
      (forall d :: d in slots' ==> slots'[d] != roots[s]) &&
      (forall k :: 0 <= k < f - 1 && k != i' ==> InSlot(nodes', slots', roots'[k])) &&
      (forall k :: f - 1 <= k < |roots'| ==> !InSlot(nodes', slots', roots'[k]))
  {
    assert nodes[roots[s]].degree == nodes[roots[i]].degree;
    MergeTable(nodes, roots, slots, roots[s], roots[g], g);
    MergeBelow(nodes, roots, slots, roots[s], roots[g], g, s, f);
    MergeAbove(nodes, roots, slots, roots[s], roots[g], g, s, f);
  }

  /** Linking c under p and emptying slot d, which named p or c, leaves every
      other node in or out of its slot as it was. */
  lemma LinkInSlot<T>(nodes: seq<Node<T>>, slots: map<nat, nat>, p: nat, c: nat, d: nat, x: nat)
    requires p < |nodes| && c < |nodes| && p != c && x != p && x != c
    requires d in slots && (slots[d] == p || slots[d] == c)
    ensures InSlot(LinkAt(nodes, p, c), slots - {d}, x) <==> InSlot(nodes, slots, x)
  {
    if x < |nodes| {
      assert LinkAt(nodes, p, c)[x] == nodes[x];
    }
  }

  /** After one merge the table still names roots of the slot's degree, and
      not the surviving root. */
  lemma MergeTable<T>(nodes: seq<Node<T>>, roots: seq<nat>, slots: map<nat, nat>,
                      stays: nat, gone: nat, g: nat)
    requires Distinct(roots) && g < |roots| && roots[g] == gone
    requires stays < |nodes| && gone < |nodes| && stays != gone
    requires nodes[stays].degree in slots
    requires SlotsByDegree(nodes, roots, slots)
    requires forall d :: d in slots && d != nodes[stays].degree ==> slots[d] != stays && slots[d] != gone
    ensures SlotsByDegree(LinkAt(nodes, stays, gone), RemoveAt(roots, g), slots - {nodes[stays].degree})
    ensures forall d :: d in slots - {nodes[stays].degree} ==> (slots - {nodes[stays].degree})[d] != stays
  {
    var nodes' := LinkAt(nodes, stays, gone);
    var slots' := slots - {nodes[stays].degree};
    var roots' := RemoveAt(roots, g);
    forall d | d in slots'
      ensures slots'[d] in roots' && slots'[d] < |nodes'| && nodes'[slots'[d]].degree == d && nodes'[slots'[d]].position == d
    {
      var h := slots[d];
      assert h != stays && h != gone;
      assert nodes'[h] == nodes[h];
    }
  }

  /** After one merge the roots before the frontier, but the cursor, are still
      in their slots. */
  lemma MergeBelow<T>(nodes: seq<Node<T>>, roots: seq<nat>, slots: map<nat, nat>,
                      stays: nat, gone: nat, g: nat, s: nat, f: nat)
    requires Distinct(roots) && s < f <= |roots| && g < f && g != s
    requires roots[s] == stays && roots[g] == gone && stays < |nodes| && gone < |nodes|
    requires nodes[stays].degree in slots
    requires slots[nodes[stays].degree] == stays || slots[nodes[stays].degree] == gone
    requires forall k :: 0 <= k < f && k != s && k != g ==> InSlot(nodes, slots, roots[k])
    ensures var s' := if g < s then s - 1 else s;
      s' < f - 1 && RemoveAt(roots, g)[s'] == stays &&
      forall k :: 0 <= k < f - 1 && k != s' ==>
        InSlot(LinkAt(nodes, stays, gone), slots - {nodes[stays].degree}, RemoveAt(roots, g)[k])
  {
    var roots' := RemoveAt(roots, g);
    var s' := if g < s then s - 1 else s;
    assert roots'[s'] == stays;
    forall k | 0 <= k < f - 1 && k != s'
      ensures InSlot(LinkAt(nodes, stays, gone), slots - {nodes[stays].degree}, roots'[k])
    {
      var ko := if k < g then k else k + 1;
      assert roots'[k] == roots[ko] && ko < f && ko != s && ko != g;
      LinkInSlot(nodes, slots, stays, gone, nodes[stays].degree, roots[ko]);
    }
  }

  /** After one merge no root from the frontier on is in its slot. */
  lemma MergeAbove<T>(nodes: seq<Node<T>>, roots: seq<nat>, slots: map<nat, nat>,
                      stays: nat, gone: nat, g: nat, s: nat, f: nat)
    requires Distinct(roots) && s < f <= |roots| && g < f && g != s
    requires roots[s] == stays && roots[g] == gone && stays < |nodes| && gone < |nodes|
    requires nodes[stays].degree in slots
    requires slots[nodes[stays].degree] == stays || slots[nodes[stays].degree] == gone
    requires forall k :: f <= k < |roots| ==> !InSlot(nodes, slots, roots[k])
    ensures forall k :: f - 1 <= k < |roots| - 1 ==>
      !InSlot(LinkAt(nodes, stays, gone), slots - {nodes[stays].degree}, RemoveAt(roots, g)[k])
  {
    var roots' := RemoveAt(roots, g);
    forall k | f - 1 <= k < |roots'|
      ensures !InSlot(LinkAt(nodes, stays, gone), slots - {nodes[stays].degree}, roots'[k])
    {
      assert roots'[k] == roots[k + 1] && k + 1 != s && k + 1 != g;
      LinkInSlot(nodes, slots, stays, gone, nodes[stays].degree, roots[k + 1]);
    }
  }

  /** The first loop of consolidate (internal.go:23-25): clearing the slot
      recorded by every root empties the table. */
  method ClearSlots<T>(nodes: seq<Node<T>>, roots: seq<nat>, slots: map<nat, nat>) returns (slots': map<nat, nat>)
    requires SlotsOk(nodes, roots, slots)
    requires forall k :: 0 <= k < |roots| ==> roots[k] < |nodes|
    ensures slots' == map[]
  {
    slots' := slots;
    var k := 0;
    while k < |roots|
      invariant 0 <= k <= |roots|
      invariant forall d :: d in slots' ==>
        slots'[d] in roots[k..] && slots'[d] < |nodes| && nodes[slots'[d]].position == d
    {
      assert roots[k..] == [roots[k]] + roots[k + 1..];
      slots' := slots' - {nodes[roots[k]].position};
      k := k + 1;
    }
    assert forall d :: d !in slots';
  }

  /** The state of consolidate's second loop (internal.go:27-54) with the
      cursor at position i: the roots before the frontier f are filed in the
      slots of their degrees, the roots from f on are not. */
  ghost predicate Scanning<T(!new)>(nodes: seq<Node<T>>, index: map<T, nat>, roots: seq<nat>, rank: seq<nat>,
                                   slots: map<nat, nat>, i: nat, f: nat) {
    Forest(nodes, index, roots, rank, {}) && i <= f <= |roots| && SlotsByDegree(nodes, roots, slots) &&
    (forall k :: 0 <= k < f ==> InSlot(nodes, slots, roots[k])) &&
    (forall k :: f <= k < |roots| ==> !InSlot(nodes, slots, roots[k]))
  }

  /** internal.go:28-32: the slot of the tree's degree is empty, so the tree is
      filed there and the cursor moves on. */
  lemma FileNew<T(!new)>(nodes: seq<Node<T>>, index: map<T, nat>, roots: seq<nat>, rank: seq<nat>,
                         slots: map<nat, nat>, i: nat, f: nat)
    requires Scanning(nodes, index, roots, rank, slots, i, f) && i < |roots|
    requires roots[i] < |nodes| && nodes[roots[i]].degree !in slots
    ensures Scanning(RecordPosition(nodes, roots[i]), index, roots, rank,
                     slots[nodes[roots[i]].degree := roots[i]], i + 1, i + 1)
    ensures SameEntries(nodes, RecordPosition(nodes, roots[i]))
  {
    assert !InSlot(nodes, slots, roots[i]);
    Place(nodes, index, roots, rank, slots, i);
  }

  /** internal.go:35-38: the tree is already filed under its degree, so the
      cursor moves on. */
  lemma Skip<T(!new)>(nodes: seq<Node<T>>, index: map<T, nat>, roots: seq<nat>, rank: seq<nat>,
                      slots: map<nat, nat>, i: nat, f: nat)
    requires Scanning(nodes, index, roots, rank, slots, i, f) && i < |roots|
    requires InSlot(nodes, slots, roots[i])
    ensures Scanning(nodes, index, roots, rank, slots, i + 1, f)
  {
  }

  /** Entering the merge loop (internal.go:40): the slot of the tree's degree
      holds another root, so the tree is not filed anywhere and sits at the frontier. */
  lemma EnterMerge<T(!new)>(nodes: seq<Node<T>>, index: map<T, nat>, roots: seq<nat>, rank: seq<nat>,
                            slots: map<nat, nat>, i: nat, f: nat)
    requires Scanning(nodes, index, roots, rank, slots, i, f) && i < |roots| && roots[i] < |nodes|
    requires nodes[roots[i]].degree in slots && slots[nodes[roots[i]].degree] != roots[i]
    ensures i == f
    ensures forall d :: d in slots ==> slots[d] != roots[i]
  {
    assert !InSlot(nodes, slots, roots[i]);
  }

  /** internal.go:52-53: after the merges the tree is filed under its final
      degree; the cursor stays, so the next round finds it filed. */
  lemma FileMerged<T(!new)>(nodes: seq<Node<T>>, index: map<T, nat>, roots: seq<nat>, rank: seq<nat>,
                            slots: map<nat, nat>, i: nat, f: nat)
    requires Forest(nodes, index, roots, rank, {})
    requires i < f <= |roots| && roots[i] < |nodes|
    requires SlotsByDegree(nodes, roots, slots) && nodes[roots[i]].degree !in slots
    requires forall k :: 0 <= k < f && k != i ==> InSlot(nodes, slots, roots[k])
    requires forall k :: f <= k < |roots| ==> !InSlot(nodes, slots, roots[k])
    ensures Scanning(RecordPosition(nodes, roots[i]), index, roots, rank,
                     slots[nodes[roots[i]].degree := roots[i]], i, f)
    ensures SameEntries(nodes, RecordPosition(nodes, roots[i]))
  {
    Place(nodes, index, roots, rank, slots, i);
  }

  /** The merge loop of consolidate (internal.go:40-53): merge the tree with the
      root filed under its degree until that slot is empty, then file the tree. */
  method MergeAll<T(!new)>(nodes: seq<Node<T>>, index: map<T, nat>, roots: seq<nat>, slots: map<nat, nat>,
                           ghost rank: seq<nat>, i: nat, ghost f: nat)
    returns (nodes': seq<Node<T>>, roots': seq<nat>, slots': map<nat, nat>, ghost rank': seq<nat>,
             i': nat, ghost f': nat)
    requires Scanning(nodes, index, roots, rank, slots, i, f) && i < |roots| && roots[i] < |nodes|
    requires nodes[roots[i]].degree in slots && slots[nodes[roots[i]].degree] != roots[i]
    ensures Scanning(nodes', index, roots', rank', slots', i', f') && SameEntries(nodes, nodes')
    ensures |roots'| < |roots|
  {
    var tree := roots[i];
    EnterMerge(nodes, index, roots, rank, slots, i, f);
    nodes', roots', slots', rank', i', f' := nodes, roots, slots, rank, i, f + 1;
    while nodes'[tree].degree in slots'
      invariant Forest(nodes', index, roots', rank', {}) && SameEntries(nodes, nodes')
      invariant i' < f' <= |roots'| && roots'[i'] == tree && tree < |nodes'|
      invariant SlotsByDegree(nodes', roots', slots')
      invariant forall d :: d in slots' ==> slots'[d] != tree
      invariant forall k :: 0 <= k < f' && k != i' ==> InSlot(nodes', slots', roots'[k])
      invariant forall k :: f' <= k < |roots'| ==> !InSlot(nodes', slots', roots'[k])
      invariant |roots'| < |roots| || (|roots'| == |roots| && nodes'[tree].degree in slots')
      decreases |roots'|
    {
      ghost var before := nodes';
      nodes', roots', slots', rank', tree, i', f' := Merge(nodes', index, roots', slots', rank', tree, i', f');
      SameEntriesTrans(nodes, before, nodes');
    }
    FileMerged(nodes', index, roots', rank', slots', i', f');
    ghost var before := nodes';
    slots' := slots'[nodes'[tree].degree := tree];
    nodes' := RecordPosition(nodes', tree);
    SameEntriesTrans(nodes, before, nodes');
  }

  /** One round of consolidate's second loop (internal.go:27-54). */
  method ScanStep<T(!new)>(nodes: seq<Node<T>>, index: map<T, nat>, roots: seq<nat>, slots: map<nat, nat>,
                           ghost rank: seq<nat>, i: nat, ghost f: nat)
    returns (nodes': seq<Node<T>>, roots': seq<nat>, slots': map<nat, nat>, ghost rank': seq<nat>,
             i': nat, ghost f': nat)
    requires Scanning(nodes, index, roots, rank, slots, i, f) && i < |roots|
    ensures Scanning(nodes', index, roots', rank', slots', i', f') && SameEntries(nodes, nodes')
    ensures |roots'| < |roots| || (|roots'| == |roots| && i < i')
  {
    var tree := roots[i];
    assert Live(nodes, index, tree);
    var d := nodes[tree].degree;
    if d !in slots {
      FileNew(nodes, index, roots, rank, slots, i, f);
      nodes', roots', slots', rank', i', f' := RecordPosition(nodes, tree), roots, slots[d := tree], rank, i + 1, i + 1;
    } else if slots[d] == tree {
      Skip(nodes, index, roots, rank, slots, i, f);
      nodes', roots', slots', rank', i', f' := nodes, roots, slots, rank, i + 1, f;
    } else {
      nodes', roots', slots', rank', i', f' := MergeAll(nodes, index, roots, slots, rank, i, f);
    }
  }

  /** When the scan has passed every root, every root is filed under its degree. */
  lemma ScanDone<T(!new)>(nodes: seq<Node<T>>, index: map<T, nat>, roots: seq<nat>, rank: seq<nat>,
                          slots: map<nat, nat>, f: nat)
    requires Scanning(nodes, index, roots, rank, slots, |roots|, f)
    ensures SlotsByDegree(nodes, roots, slots) && SlotsOk(nodes, roots, slots)
    ensures forall k :: 0 <= k < |roots| ==> InSlot(nodes, slots, roots[k])
    ensures forall i, j :: 0 <= i < j < |roots| ==> nodes[roots[i]].degree != nodes[roots[j]].degree
  {
    forall k | 0 <= k < |roots| ensures roots[k] < |nodes| {
      assert InSlot(nodes, slots, roots[k]);
    }
    AllSlottedDistinctDegrees(nodes, roots, slots);
  }

  /** consolidate without its final resetMin: afterwards every root sits in the
      slot of its degree, so no two roots have the same degree, and the arena
      holds the same entries under the same tags. */
  method Consolidate<T(!new)>(nodes: seq<Node<T>>, index: map<T, nat>, roots: seq<nat>,
                              slots: map<nat, nat>, ghost rank: seq<nat>)
    returns (nodes': seq<Node<T>>, roots': seq<nat>, slots': map<nat, nat>, ghost rank': seq<nat>)
    requires Forest(nodes, index, roots, rank, {}) && SlotsOk(nodes, roots, slots)
    ensures Forest(nodes', index, roots', rank', {}) && SameEntries(nodes, nodes')
    ensures SlotsByDegree(nodes', roots', slots') && SlotsOk(nodes', roots', slots')
    ensures forall k :: 0 <= k < |roots'| ==> InSlot(nodes', slots', roots'[k])
    ensures forall i, j :: 0 <= i < j < |roots'| ==> nodes'[roots'[i]].degree != nodes'[roots'[j]].degree
    ensures |roots'| <= |roots|
  {
    assert forall k :: 0 <= k < |roots| ==> roots[k] < |nodes| by {
      forall k | 0 <= k < |roots| ensures roots[k] < |nodes| {
        assert Live(nodes, index, roots[k]);
      }
    }
    slots' := ClearSlots(nodes, roots, slots);
    nodes', roots', rank' := nodes, roots, rank;
    var i: nat := 0;
    ghost var f: nat := 0;
    while i < |roots'|
      invariant Scanning(nodes', index, roots', rank', slots', i, f) && SameEntries(nodes, nodes')
      invariant |roots'| <= |roots| && i <= |roots'|
      decreases |roots'|, |roots'| - i
    {
      ghost var before := nodes';
      nodes', roots', slots', rank', i, f := ScanStep(nodes', index, roots', slots', rank', i, f);
      SameEntriesTrans(nodes, before, nodes');
    }
    ScanDone(nodes', index, roots', rank', slots', f);
  }
}
