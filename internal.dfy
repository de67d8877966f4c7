/** The operations of internal.go on the heap's state. Each method takes the
    fields of a `FibHeap` (types.go:8-15) as values and returns the fields it
    updates; the class in fibheap.dfy stores the results back. */
module Internal {
  import opened Util
  import opened Keys
  import opened Forests
  import opened Consolidation

  /** The failures the source reports through its `error` results. */
  datatype Error = ReservedKey | DuplicateTag | TagNotFound | KeyNotSmaller | KeyNotLarger

  /** A Go `error` result: nil (Pass) or one failure. */
  datatype Outcome = Pass | Fail(error: Error)

  /** `min` is nil exactly when the heap is empty, and otherwise a root whose
      key is no larger than any live node's. */
  ghost predicate MinOk<T(!new)>(nodes: seq<Node<T>>, index: map<T, nat>, roots: seq<nat>,
                                min: Option<nat>, num: nat) {
    (min.None? <==> num == 0) &&
    (min.Some? ==>
       min.value < |nodes| && min.value in roots &&
       forall x: nat :: Live(nodes, index, x) ==> Le(nodes[min.value].key, nodes[x].key))
  }

  /** The invariant of types.go kept by every operation: the forest, the count,
      the degree table and the min pointer. */
  ghost predicate HeapOk<T(!new)>(nodes: seq<Node<T>>, index: map<T, nat>, roots: seq<nat>, rank: seq<nat>,
                                 slots: map<nat, nat>, min: Option<nat>, num: nat) {
    Forest(nodes, index, roots, rank, {}) && num == |index| && SlotsOk(nodes, roots, slots) &&
    MinOk(nodes, index, roots, min, num)
  }

  /** No entry holds the key -inf, which the deletion path reserves. */
  ghost predicate NoReservedKey<T>(entries: map<T, Key>) {
    forall t :: t in entries ==> entries[t] != NegInf
  }

  /** The tag and key stored at `x`, when `x` names a node of the arena: with
      `x` the min pointer, the entry Minimum reports. */
  ghost function EntryAt<T>(nodes: seq<Node<T>>, x: Option<nat>): Option<(T, Key)> {
    if x.Some? && x.value < |nodes| then Some((nodes[x.value].tag, nodes[x.value].key)) else None
  }

  /** Changing the key of n and reshaping the forest around it leaves the entry
      at every other position as it was. */
  lemma EntryKept<T>(nodes: seq<Node<T>>, n: nat, key: Key, nodes': seq<Node<T>>, x: Option<nat>)
    requires n < |nodes| && SameEntries(nodes[n := nodes[n].(key := key)], nodes')
    ensures x != Some(n) ==> EntryAt(nodes', x) == EntryAt(nodes, x)
    ensures x == Some(n) ==> EntryAt(nodes', x) == Some((nodes[n].tag, key))
  {
    if x.Some? && x.value < |nodes| && x.value != n {
      assert nodes[n := nodes[n].(key := key)][x.value] == nodes[x.value];
    }
  }

  /** Storing a key other than -inf keeps -inf out. */
  lemma NoReservedKeyUpdate<T>(entries: map<T, Key>, t: T, k: Key)
    requires NoReservedKey(entries) && k != NegInf
    ensures NoReservedKey(entries[t := k])
  {
  }

  /** Removing an entry keeps -inf out. */
  lemma NoReservedKeyRemove<T>(entries: map<T, Key>, t: T)
    requires NoReservedKey(entries)
    ensures NoReservedKey(entries - {t})
  {
  }

  /** Whether a tag has an entry is whether the index holds it, and then the
      entry is the key of the node the index names. */
  lemma ContentsHas<T(!new)>(nodes: seq<Node<T>>, index: map<T, nat>, tag: T)
    requires IndexOk(nodes, index)
    ensures tag in ContentsOf(nodes, index) <==> tag in index
    ensures tag in index ==>
      Live(nodes, index, index[tag]) && nodes[index[tag]].tag == tag &&
      ContentsOf(nodes, index)[tag] == nodes[index[tag]].key
  {
  }

  // ---------------------------------------------------------------------------
  // resetMin

  /** resetMin (internal.go:122-129): the first root of least key. */
  method ResetMin<T>(nodes: seq<Node<T>>, roots: seq<nat>) returns (m: nat)
    requires roots != [] && forall k :: 0 <= k < |roots| ==> roots[k] < |nodes|
    ensures m in roots && m < |nodes|
    ensures forall k :: 0 <= k < |roots| ==> Le(nodes[m].key, nodes[roots[k]].key)
    ensures forall k :: 0 <= k < IndexOf(roots, m) ==> Less(nodes[m].key, nodes[roots[k]].key)
  {
    m := roots[0];
    ghost var at := 0;
    var k := 1;
    while k < |roots|
      invariant 1 <= k <= |roots| && at < k && m == roots[at]
      invariant forall q :: 0 <= q < k ==> Le(nodes[m].key, nodes[roots[q]].key)
      invariant forall q :: 0 <= q < at ==> Less(nodes[m].key, nodes[roots[q]].key)
    {
      if Less(nodes[roots[k]].key, nodes[m].key) {
        forall q | 0 <= q < k ensures Less(nodes[roots[k]].key, nodes[roots[q]].key) {
          LeTotalOrder(nodes[roots[k]].key, nodes[m].key, nodes[roots[q]].key);
        }
        m := roots[k];
        at := k;
      }
      k := k + 1;
    }
    IndexOfFirst(roots, m, at);
  }

  /** A root whose key is no larger than any root's is no larger than any live
      node's: every node hangs below a root of no larger key. */
  lemma LeastRootIsLeast<T(!new)>(nodes: seq<Node<T>>, index: map<T, nat>, roots: seq<nat>, rank: seq<nat>, m: nat)
    requires Forest(nodes, index, roots, rank, {}) && m < |nodes|
    requires forall k :: 0 <= k < |roots| ==> Le(nodes[m].key, nodes[roots[k]].key)
    ensures forall x: nat :: Live(nodes, index, x) ==> Le(nodes[m].key, nodes[x].key)
  {
    forall x: nat | Live(nodes, index, x) ensures Le(nodes[m].key, nodes[x].key) {
      var r := RootAbove(nodes, index, roots, rank, x);
      var kr := IndexOf(roots, r);
      LeTotalOrder(nodes[m].key, nodes[r].key, nodes[x].key);
    }
  }

  // ---------------------------------------------------------------------------
  // cut and cascadingCut

  /** cascadingCut (internal.go:186-196): a root is left alone, an unmarked
      child is marked, a marked child is cut to the root list and the cut
      cascades to its old parent p: p is then left alone if it is a root,
      marked if it is unmarked, and cut next if it is marked. Nodes of lower
      rank than n do not change, the root list only grows at its end, and the
      forest and its entries are kept. */
  method CascadingCut<T(!new)>(nodes: seq<Node<T>>, index: map<T, nat>, roots: seq<nat>,
                               ghost rank: seq<nat>, ghost ex: set<nat>, n: nat)
    returns (nodes': seq<Node<T>>, roots': seq<nat>)
    requires Forest(nodes, index, roots, rank, ex) && Live(nodes, index, n)
    ensures Forest(nodes', index, roots', rank, ex) && SameEntries(nodes, nodes')
    ensures |roots| <= |roots'| && roots'[..|roots|] == roots
    ensures forall x: nat :: x < |nodes| ==> nodes'[x].position == nodes[x].position
    ensures forall x: nat :: x < |nodes| && rank[x] < rank[n] ==> nodes'[x] == nodes[x]
    ensures nodes[n].parent.None? ==> nodes' == nodes && roots' == roots
    ensures nodes[n].parent.Some? && !nodes[n].marked ==>
      nodes' == nodes[n := nodes[n].(marked := true)] && roots' == roots
    ensures nodes[n].parent.Some? && nodes[n].marked ==>
      var p := nodes[n].parent.value;
      p < |nodes| && p != n && nodes[p].degree > 0 &&
      |roots| < |roots'| && roots'[|roots|] == n &&
      nodes'[n] == nodes[n].(parent := None, marked := false) &&
      (nodes[p].parent.None? ==> nodes' == CutAt(nodes, n) && roots' == roots + [n]) &&
      (nodes[p].parent.Some? && !nodes[p].marked ==>
         nodes' == CutAt(nodes, n)[p := CutAt(nodes, n)[p].(marked := true)] && roots' == roots + [n]) &&
      (nodes[p].parent.Some? && nodes[p].marked ==>
         |roots| + 1 < |roots'| && roots'[|roots| + 1] == p &&
         nodes'[p] == CutAt(nodes, n)[p].(parent := None, marked := false))
    decreases SeqMax(rank) - rank[n]
  {
    if nodes[n].parent.None? {
      nodes', roots' := nodes, roots;
    } else if !nodes[n].marked {
      MarkKeepsForest(nodes, index, roots, rank, ex, n);
      nodes', roots' := nodes[n := nodes[n].(marked := true)], roots;
    } else {
      var p := nodes[n].parent.value;
      CutStep(nodes, index, roots, rank, ex, n);
      var ns, rs := CutAt(nodes, n), roots + [n];
      nodes', roots' := CascadingCut(ns, index, rs, rank, ex, p);
      CascadeCompose(nodes, ns, nodes', roots, roots', rank, n, p);
    }
  }

  /** Marking a node keeps the forest, its entries and the degree table positions. */
  lemma MarkKeepsForest<T(!new)>(nodes: seq<Node<T>>, index: map<T, nat>, roots: seq<nat>,
                                 rank: seq<nat>, ex: set<nat>, n: nat)
    requires Forest(nodes, index, roots, rank, ex) && n < |nodes|
    ensures Forest(nodes[n := nodes[n].(marked := true)], index, roots, rank, ex)
    ensures SameEntries(nodes, nodes[n := nodes[n].(marked := true)])
  {
    ReshapeKeepsForest(nodes, nodes[n := nodes[n].(marked := true)], index, roots, rank, ex);
  }

  /** cut(n) (internal.go:178-184) on a child n: the forest is kept, n joins the
      roots, and only n and its parent, of higher rank, change. */
  lemma CutStep<T(!new)>(nodes: seq<Node<T>>, index: map<T, nat>, roots: seq<nat>,
                         rank: seq<nat>, ex: set<nat>, n: nat)
    requires Forest(nodes, index, roots, rank, ex) && Live(nodes, index, n) && nodes[n].parent.Some?
    ensures var p := nodes[n].parent.value;
      p < |nodes| && p != n && |rank| == |nodes| && rank[n] < rank[p] &&
      Live(CutAt(nodes, n), index, p) && nodes[p].degree > 0
    ensures Forest(CutAt(nodes, n), index, roots + [n], rank, ex) && SameEntries(nodes, CutAt(nodes, n))
    ensures forall x: nat :: x < |nodes| && x != n && x != nodes[n].parent.value ==> CutAt(nodes, n)[x] == nodes[x]
    ensures forall x: nat :: x < |nodes| ==> CutAt(nodes, n)[x].position == nodes[x].position
  {
    CutKeepsForest(nodes, index, roots, rank, ex, n);
    SameEntriesSameContents(nodes, CutAt(nodes, n), index);
  }

  /** Putting a cut of n before the cascade from its parent p together. */
  lemma CascadeCompose<T>(nodes: seq<Node<T>>, ns: seq<Node<T>>, nodes': seq<Node<T>>,
                          roots: seq<nat>, roots': seq<nat>, rank: seq<nat>, n: nat, p: nat)
    requires n < |nodes| && p < |nodes| && p != n && |rank| == |nodes| && rank[n] < rank[p]
    requires SameEntries(nodes, ns) && SameEntries(ns, nodes')
    requires forall x: nat :: x < |nodes| && x != n && x != p ==> ns[x] == nodes[x]
    requires forall x: nat :: x < |nodes| ==> ns[x].position == nodes[x].position
    requires forall x: nat :: x < |ns| ==> nodes'[x].position == ns[x].position
    requires forall x: nat :: x < |ns| && rank[x] < rank[p] ==> nodes'[x] == ns[x]
    requires |roots + [n]| <= |roots'| && roots'[..|roots + [n]|] == roots + [n]
    ensures SameEntries(nodes, nodes')
    ensures |roots| < |roots'| && roots'[..|roots|] == roots && roots'[|roots|] == n
    ensures forall x: nat :: x < |nodes| ==> nodes'[x].position == nodes[x].position
    ensures forall x: nat :: x < |nodes| && rank[x] < rank[n] ==> nodes'[x] == nodes[x]
    ensures forall x: nat :: x < |nodes| && x != n && rank[x] < rank[p] ==> nodes'[x] == nodes[x]
  {
    assert roots'[..|roots|] == (roots + [n])[..|roots|];
    assert roots'[|roots|] == roots'[..|roots + [n]|][|roots|];
  }

  /** Cuts and marks add roots at the end of the list and move no position:
      the degree table still names roots that record their slots. */
  lemma SlotsKept<T>(nodes: seq<Node<T>>, nodes': seq<Node<T>>, roots: seq<nat>, roots': seq<nat>,
                     slots: map<nat, nat>)
    requires SlotsOk(nodes, roots, slots) && |nodes'| == |nodes|
    requires forall x: nat :: x < |nodes| ==> nodes'[x].position == nodes[x].position
    requires |roots| <= |roots'| && roots'[..|roots|] == roots
    ensures SlotsOk(nodes', roots', slots)
  {
    forall d | d in slots ensures slots[d] in roots' {
      assert slots[d] in roots'[..|roots|];
    }
  }

  // ---------------------------------------------------------------------------
  // decreaseKey

  /** decreaseKey after its assignment (internal.go:138-144): a child whose key
      is now below its parent's is cut and the cut cascades from the parent;
      heap order holds again everywhere. */
  method Settle<T(!new)>(nodes: seq<Node<T>>, index: map<T, nat>, roots: seq<nat>, ghost rank: seq<nat>, n: nat)
    returns (nodes': seq<Node<T>>, roots': seq<nat>)
    requires Forest(nodes, index, roots, rank, {n}) && Live(nodes, index, n)
    ensures Forest(nodes', index, roots', rank, {}) && SameEntries(nodes, nodes')
    ensures |roots| <= |roots'| && roots'[..|roots|] == roots
    ensures forall x: nat :: x < |nodes| ==> nodes'[x].position == nodes[x].position
    ensures nodes[n].parent.Some? && Less(nodes[n].key, nodes[nodes[n].parent.value].key) ==>
      |roots| < |roots'| && roots'[|roots|] == n && nodes'[n] == nodes[n].(parent := None, marked := false)
    ensures nodes[n].parent.None? || !Less(nodes[n].key, nodes[nodes[n].parent.value].key) ==>
      nodes' == nodes && roots' == roots
  {
    assert {n} - {n} == {};
    if nodes[n].parent.Some? && Less(nodes[n].key, nodes[nodes[n].parent.value].key) {
      var p := nodes[n].parent.value;
      CutStep(nodes, index, roots, rank, {n}, n);
      var ns, rs := CutAt(nodes, n), roots + [n];
      ReleaseExempt(ns, index, rs, rank, {n}, n);
      nodes', roots' := CascadingCut(ns, index, rs, rank, {}, p);
      SettleCompose(nodes, ns, nodes', roots, roots', n);
    } else {
      if nodes[n].parent.Some? {
        assert Live(nodes, index, nodes[n].parent.value);
        LeTotalOrder(nodes[n].key, nodes[nodes[n].parent.value].key, nodes[n].key);
      }
      ReleaseExempt(nodes, index, roots, rank, {n}, n);
      nodes', roots' := nodes, roots;
    }
  }

  /** Putting the cut of n before the cascade from its parent together. */
  lemma SettleCompose<T>(nodes: seq<Node<T>>, ns: seq<Node<T>>, nodes': seq<Node<T>>,
                         roots: seq<nat>, roots': seq<nat>, n: nat)
    requires SameEntries(nodes, ns) && SameEntries(ns, nodes')
    requires forall x: nat :: x < |nodes| ==> ns[x].position == nodes[x].position
    requires forall x: nat :: x < |ns| ==> nodes'[x].position == ns[x].position
    requires |roots + [n]| <= |roots'| && roots'[..|roots + [n]|] == roots + [n]
    ensures SameEntries(nodes, nodes')
    ensures |roots| < |roots'| && roots'[..|roots|] == roots && roots'[|roots|] == n
    ensures forall x: nat :: x < |nodes| ==> nodes'[x].position == nodes[x].position
  {
    assert roots'[..|roots|] == (roots + [n])[..|roots|];
    assert roots'[|roots|] == roots'[..|roots + [n]|][|roots|];
  }

  /** decreaseKey's update of `min` (internal.go:146-148) restores MinOk: the
      lowered node becomes the min when it is a root with a smaller key. */
  lemma LowerKeyMin<T(!new)>(nodes: seq<Node<T>>, index: map<T, nat>, roots: seq<nat>, rank: seq<nat>,
                             min: Option<nat>, num: nat, n: nat, key: Key,
                             nodes': seq<Node<T>>, roots': seq<nat>)
    requires num == |index| && MinOk(nodes, index, roots, min, num)
    requires Live(nodes, index, n) && Less(key, nodes[n].key)
    requires Forest(nodes', index, roots', rank, {}) && SameEntries(nodes[n := nodes[n].(key := key)], nodes')
    requires |roots| <= |roots'| && roots'[..|roots|] == roots
    ensures min.Some? && min.value < |nodes'|
    ensures MinOk(nodes', index, roots',
                  if nodes'[n].parent.None? && Less(nodes'[n].key, nodes'[min.value].key) then Some(n) else min, num)
  {
    assert nodes[n].tag in index;
    assert min.value in roots'[..|roots|];
    if nodes'[n].parent.None? && Less(nodes'[n].key, nodes'[min.value].key) {
      NewMin(nodes, index, roots, rank, min, num, n, key, nodes', roots');
    } else {
      SameMin(nodes, index, roots, rank, min, num, n, key, nodes', roots');
    }
  }

  /** Every live node but n keeps its key when n's key is lowered. */
  lemma LoweredOthers<T(!new)>(nodes: seq<Node<T>>, index: map<T, nat>, n: nat, key: Key, nodes': seq<Node<T>>)
    requires n < |nodes| && SameEntries(nodes[n := nodes[n].(key := key)], nodes')
    ensures forall x: nat :: Live(nodes', index, x) <==> Live(nodes, index, x)
    ensures forall x: nat :: x < |nodes| && x != n ==> nodes'[x].key == nodes[x].key
    ensures n < |nodes'| && nodes'[n].key == key
  {
    var lowered := nodes[n := nodes[n].(key := key)];
    forall x: nat | x < |nodes| && x != n ensures nodes'[x].key == nodes[x].key && nodes'[x].tag == nodes[x].tag {
      assert lowered[x] == nodes[x];
    }
  }

  /** The lowered root n is below the old min, hence below everything. */
  lemma NewMin<T(!new)>(nodes: seq<Node<T>>, index: map<T, nat>, roots: seq<nat>, rank: seq<nat>,
                        min: Option<nat>, num: nat, n: nat, key: Key,
                        nodes': seq<Node<T>>, roots': seq<nat>)
    requires num == |index| && MinOk(nodes, index, roots, min, num)
    requires Live(nodes, index, n) && Less(key, nodes[n].key) && min.Some?
    requires Forest(nodes', index, roots', rank, {}) && SameEntries(nodes[n := nodes[n].(key := key)], nodes')
    requires min.value < |nodes'| && n < |nodes'| && nodes'[n].parent.None?
    requires Less(nodes'[n].key, nodes'[min.value].key)
    ensures MinOk(nodes', index, roots', Some(n), num)
  {
    LoweredOthers(nodes, index, n, key, nodes');
    var m := min.value;
    assert Live(nodes', index, n);
    assert n in roots';
    forall x: nat | Live(nodes', index, x) ensures Le(nodes'[n].key, nodes'[x].key) {
      if x != n {
        if m == n {
          LeTotalOrder(key, nodes[n].key, nodes[x].key);
        } else {
          LeTotalOrder(nodes'[n].key, nodes'[m].key, nodes'[x].key);
        }
      } else {
        LeTotalOrder(key, key, key);
      }
    }
  }

  /** Otherwise the old min stays the min: n is a root no smaller than it, or
      hangs below a root no smaller than it. */
  lemma SameMin<T(!new)>(nodes: seq<Node<T>>, index: map<T, nat>, roots: seq<nat>, rank: seq<nat>,
                         min: Option<nat>, num: nat, n: nat, key: Key,
                         nodes': seq<Node<T>>, roots': seq<nat>)
    requires num == |index| && MinOk(nodes, index, roots, min, num)
    requires Live(nodes, index, n) && Less(key, nodes[n].key) && min.Some? && min.value in roots'
    requires Forest(nodes', index, roots', rank, {}) && SameEntries(nodes[n := nodes[n].(key := key)], nodes')
    requires min.value < |nodes'| && n < |nodes'|
    requires !(nodes'[n].parent.None? && Less(nodes'[n].key, nodes'[min.value].key))
    ensures MinOk(nodes', index, roots', min, num)
  {
    LoweredOthers(nodes, index, n, key, nodes');
    var m := min.value;
    assert Live(nodes', index, m) && Live(nodes', index, n);
    if m == n {
      assert nodes'[n].parent.None?;
      LeTotalOrder(key, key, key);
      forall x: nat | Live(nodes', index, x) ensures Le(nodes'[n].key, nodes'[x].key) {
        if x != n {
          LeTotalOrder(key, nodes[n].key, nodes[x].key);
        }
      }
    } else {
      if nodes'[n].parent.None? {
        LeTotalOrder(nodes'[n].key, nodes'[m].key, nodes'[n].key);
      } else {
        var r := RootAbove(nodes', index, roots', rank, n);
        assert Live(nodes', index, r) && r != n;
        LeTotalOrder(nodes'[m].key, nodes'[r].key, nodes'[n].key);
      }
      forall x: nat | Live(nodes', index, x) ensures Le(nodes'[m].key, nodes'[x].key) {
      }
    }
  }

  /** After decreaseKey's cuts and its update of `min` the heap invariant holds
      again, with the new key in the contents. */
  lemma DecreaseKeyDone<T(!new)>(nodes: seq<Node<T>>, index: map<T, nat>, roots: seq<nat>, rank: seq<nat>,
                                 slots: map<nat, nat>, min: Option<nat>, num: nat, n: nat, key: Key,
                                 nodes': seq<Node<T>>, roots': seq<nat>)
    requires HeapOk(nodes, index, roots, rank, slots, min, num) && Live(nodes, index, n) && Less(key, nodes[n].key)
    requires Forest(nodes', index, roots', rank, {}) && SameEntries(nodes[n := nodes[n].(key := key)], nodes')
    requires |roots| <= |roots'| && roots'[..|roots|] == roots
    requires forall x: nat :: x < |nodes| ==> nodes'[x].position == nodes[n := nodes[n].(key := key)][x].position
    ensures min.Some? && min.value < |nodes'|
    ensures HeapOk(nodes', index, roots', rank, slots,
                   if nodes'[n].parent.None? && Less(nodes'[n].key, nodes'[min.value].key) then Some(n) else min, num)
    ensures ContentsOf(nodes', index) == ContentsOf(nodes, index)[nodes[n].tag := key]
  {
    LowerKeyMin(nodes, index, roots, rank, min, num, n, key, nodes', roots');
    forall x: nat | x < |nodes| ensures nodes'[x].position == nodes[x].position {
      assert nodes[n := nodes[n].(key := key)][x].position == nodes[x].position;
    }
    SlotsKept(nodes, nodes', roots, roots', slots);
    ContentsSetKey(nodes, index, n, key);
    SameEntriesSameContents(nodes[n := nodes[n].(key := key)], nodes', index);
  }

  /** decreaseKey's min rule in terms of the old heap (internal.go:146-148): the
      min moves to n exactly when the new key is below the old least key. A
      node whose key drops below the least key was cut if it had a parent, so
      it is a root; when n was the min already, it stays the min. */
  lemma LowerKeyMinRule<T(!new)>(nodes: seq<Node<T>>, index: map<T, nat>, roots: seq<nat>, rank: seq<nat>,
                                 min: Option<nat>, num: nat, n: nat, key: Key,
                                 lowered: seq<Node<T>>, nodes': seq<Node<T>>, roots': seq<nat>)
    requires Forest(nodes, index, roots, rank, {}) && num == |index| && MinOk(nodes, index, roots, min, num)
    requires Live(nodes, index, n) && Less(key, nodes[n].key) && lowered == nodes[n := nodes[n].(key := key)]
    requires SameEntries(lowered, nodes')
    requires lowered[n].parent.Some? && Less(lowered[n].key, lowered[lowered[n].parent.value].key) ==>
      nodes'[n] == lowered[n].(parent := None, marked := false)
    requires lowered[n].parent.None? || !Less(lowered[n].key, lowered[lowered[n].parent.value].key) ==>
      nodes' == lowered
    ensures min.Some? && min.value < |nodes| && min.value < |nodes'|
    ensures (if nodes'[n].parent.None? && Less(nodes'[n].key, nodes'[min.value].key) then Some(n) else min)
         == (if Less(key, nodes[min.value].key) then Some(n) else min)
  {
    assert nodes[n].tag in index;
    var m := min.value;
    assert Live(nodes, index, m);
    if m != n && Less(key, nodes[m].key) {
      if nodes[n].parent.Some? {
        var p := nodes[n].parent.value;
        assert Live(nodes, index, p) && rank[n] < rank[p];
        LeTotalOrder(key, nodes[m].key, nodes[p].key);
        assert lowered[p] == nodes[p];
      }
    }
  }

  /** decreaseKey (internal.go:131-151) on the live node n. */
  method DecreaseKeyAt<T(!new)>(nodes: seq<Node<T>>, index: map<T, nat>, roots: seq<nat>, ghost rank: seq<nat>,
                                slots: map<nat, nat>, min: Option<nat>, num: nat, n: nat, key: Key)
    returns (r: Outcome, nodes': seq<Node<T>>, roots': seq<nat>, min': Option<nat>)
    requires HeapOk(nodes, index, roots, rank, slots, min, num) && Live(nodes, index, n)
    ensures HeapOk(nodes', index, roots', rank, slots, min', num)
    ensures r == if Less(key, nodes[n].key) then Pass else Fail(KeyNotSmaller)
    ensures r.Fail? ==> nodes' == nodes && roots' == roots && min' == min
    ensures r.Pass? ==> ContentsOf(nodes', index) == ContentsOf(nodes, index)[nodes[n].tag := key]
    ensures r.Pass? ==> SameEntries(nodes[n := nodes[n].(key := key)], nodes')
    ensures r.Pass? ==> min.Some? && min.value < |nodes| &&
                        min' == if Less(key, nodes[min.value].key) then Some(n) else min
  {
    if !Less(key, nodes[n].key) {
      return Fail(KeyNotSmaller), nodes, roots, min;
    }
    LeTotalOrder(key, nodes[n].key, key);
    LowerKeyKeepsForest(nodes, index, roots, rank, {}, n, key);
    var lowered := nodes[n := nodes[n].(key := key)];
    assert Live(lowered, index, n);
    nodes', roots' := Settle(lowered, index, roots, rank, n);
    DecreaseKeyDone(nodes, index, roots, rank, slots, min, num, n, key, nodes', roots');
    min' := if nodes'[n].parent.None? && Less(nodes'[n].key, nodes'[min.value].key) then Some(n) else min;
    r := Pass;
    LowerKeyMinRule(nodes, index, roots, rank, min, num, n, key, lowered, nodes', roots');
  }

  // ---------------------------------------------------------------------------
  // increaseKey

  /** What the forest says about the children of a live node. */
  lemma ChildFacts<T(!new)>(nodes: seq<Node<T>>, index: map<T, nat>, roots: seq<nat>, rank: seq<nat>,
                            ex: set<nat>, n: nat)
    requires Forest(nodes, index, roots, rank, ex) && Live(nodes, index, n)
    ensures Distinct(nodes[n].children) && n !in nodes[n].children && |rank| == |nodes|
    ensures forall j :: 0 <= j < |nodes[n].children| ==>
      var c := nodes[n].children[j];
      Live(nodes, index, c) && nodes[c].parent == Some(n) && rank[c] < rank[n]
  {
    forall j | 0 <= j < |nodes[n].children|
      ensures var c := nodes[n].children[j]; Live(nodes, index, c) && nodes[c].parent == Some(n) && rank[c] < rank[n]
    {
      assert nodes[n].children[j] in nodes[n].children;
    }
  }

  /** One round of increaseKey's loop (internal.go:163-168): the child c of n is
      cut if its key is now below n's, and the cut cascades from n; either way
      c's link no longer needs an exemption. Only c and nodes of rank at least
      n's change. */
  method CutIfSmaller<T(!new)>(nodes: seq<Node<T>>, index: map<T, nat>, roots: seq<nat>,
                               ghost rank: seq<nat>, ghost ex: set<nat>, n: nat, c: nat)
    returns (nodes': seq<Node<T>>, roots': seq<nat>)
    requires Forest(nodes, index, roots, rank, ex) && Live(nodes, index, n) && Live(nodes, index, c)
    requires nodes[c].parent == Some(n)
    ensures Forest(nodes', index, roots', rank, ex - {c}) && SameEntries(nodes, nodes')
    ensures |roots| <= |roots'| && roots'[..|roots|] == roots
    ensures forall x: nat :: x < |nodes| ==> nodes'[x].position == nodes[x].position
    ensures forall x: nat :: x < |nodes| && x != c && rank[x] < rank[n] ==> nodes'[x] == nodes[x]
    ensures Less(nodes[c].key, nodes[n].key) ==>
      |roots| < |roots'| && roots'[|roots|] == c && nodes'[c] == nodes[c].(parent := None, marked := false)
    ensures !Less(nodes[c].key, nodes[n].key) ==> nodes' == nodes && roots' == roots
  {
    if Less(nodes[c].key, nodes[n].key) {
      CutStep(nodes, index, roots, rank, ex, c);
      var ns, rs := CutAt(nodes, c), roots + [c];
      ReleaseExempt(ns, index, rs, rank, ex, c);
      nodes', roots' := CascadingCut(ns, index, rs, rank, ex - {c}, n);
      CascadeCompose(nodes, ns, nodes', roots, roots', rank, c, n);
    } else {
      LeTotalOrder(nodes[n].key, nodes[c].key, nodes[n].key);
      ReleaseExempt(nodes, index, roots, rank, ex, c);
      nodes', roots' := nodes, roots;
    }
  }

  /** The loop of increaseKey (internal.go:160-169) over the children n had when
      its key was raised: afterwards heap order holds again everywhere. */
  method CutSmallerChildren<T(!new)>(nodes: seq<Node<T>>, index: map<T, nat>, roots: seq<nat>,
                                     ghost rank: seq<nat>, n: nat)
    returns (nodes': seq<Node<T>>, roots': seq<nat>)
    requires Live(nodes, index, n) && Forest(nodes, index, roots, rank, Elems(nodes[n].children))
    ensures Forest(nodes', index, roots', rank, {}) && SameEntries(nodes, nodes')
    ensures |roots| <= |roots'| && roots'[..|roots|] == roots
    ensures forall x: nat :: x < |nodes| ==> nodes'[x].position == nodes[x].position
  {
    var cs := nodes[n].children;
    ChildFacts(nodes, index, roots, rank, Elems(cs), n);
    nodes', roots' := nodes, roots;
    var k := 0;
    while k < |cs|
      invariant 0 <= k <= |cs|
      invariant Forest(nodes', index, roots', rank, Elems(cs[k..])) && SameEntries(nodes, nodes')
      invariant |roots| <= |roots'| && roots'[..|roots|] == roots
      invariant forall x: nat :: x < |nodes| ==> nodes'[x].position == nodes[x].position
      invariant forall j :: k <= j < |cs| ==> nodes'[cs[j]] == nodes[cs[j]]
    {
      ghost var before, rootsBefore := nodes', roots';
      SameEntriesSameContents(nodes, nodes', index);
      nodes', roots' := CutIfSmaller(nodes', index, roots', rank, Elems(cs[k..]), n, cs[k]);
      ChildLoopStep(nodes, before, nodes', roots, rootsBefore, roots', rank, cs, k, n);
      k := k + 1;
    }
  }

  /** The loop invariant of CutSmallerChildren carries over one round. */
  lemma ChildLoopStep<T>(nodes: seq<Node<T>>, before: seq<Node<T>>, after: seq<Node<T>>,
                         roots: seq<nat>, rootsBefore: seq<nat>, rootsAfter: seq<nat>,
                         rank: seq<nat>, cs: seq<nat>, k: nat, n: nat)
    requires k < |cs| && Distinct(cs) && |rank| == |nodes| && n < |nodes|
    requires forall j :: 0 <= j < |cs| ==> cs[j] < |nodes| && rank[cs[j]] < rank[n]
    requires SameEntries(nodes, before) && SameEntries(before, after)
    requires |roots| <= |rootsBefore| && rootsBefore[..|roots|] == roots
    requires |rootsBefore| <= |rootsAfter| && rootsAfter[..|rootsBefore|] == rootsBefore
    requires forall x: nat :: x < |nodes| ==> before[x].position == nodes[x].position
    requires forall x: nat :: x < |before| ==> after[x].position == before[x].position
    requires forall j :: k <= j < |cs| ==> before[cs[j]] == nodes[cs[j]]
    requires forall x: nat :: x < |before| && x != cs[k] && rank[x] < rank[n] ==> after[x] == before[x]
    ensures SameEntries(nodes, after)
    ensures |roots| <= |rootsAfter| && rootsAfter[..|roots|] == roots
    ensures forall x: nat :: x < |nodes| ==> after[x].position == nodes[x].position
    ensures forall j :: k + 1 <= j < |cs| ==> after[cs[j]] == nodes[cs[j]]
    ensures Elems(cs[k..]) - {cs[k]} == Elems(cs[k + 1..])
  {
    SameEntriesTrans(nodes, before, after);
    assert rootsAfter[..|roots|] == rootsBefore[..|roots|];
    forall j | k + 1 <= j < |cs| ensures after[cs[j]] == nodes[cs[j]] {
      assert cs[j] != cs[k];
    }
    assert cs[k..] == [cs[k]] + cs[k + 1..];
    assert cs[k] !in cs[k + 1..] by {
      DistinctTail(cs[k..]);
    }
  }

  /** The children left below n are no smaller than n. */
  lemma ChildrenAbove<T(!new)>(nodes: seq<Node<T>>, index: map<T, nat>, roots: seq<nat>, rank: seq<nat>, n: nat)
    requires Forest(nodes, index, roots, rank, {}) && Live(nodes, index, n)
    ensures forall c :: c in nodes[n].children ==> Le(nodes[n].key, nodes[c].key)
  {
    forall c | c in nodes[n].children ensures Le(nodes[n].key, nodes[c].key) {
      assert Live(nodes, index, c) && nodes[c].parent == Some(n);
    }
  }

  /** What holds after increaseKey's loop whichever way `min` is then set. */
  lemma IncreaseKeyCommon<T(!new)>(nodes: seq<Node<T>>, index: map<T, nat>, roots: seq<nat>, rank: seq<nat>,
                                   slots: map<nat, nat>, min: Option<nat>, num: nat, n: nat, key: Key,
                                   nodes': seq<Node<T>>, roots': seq<nat>)
    requires HeapOk(nodes, index, roots, rank, slots, min, num) && Live(nodes, index, n)
    requires Forest(nodes', index, roots', rank, {}) && SameEntries(nodes[n := nodes[n].(key := key)], nodes')
    requires |roots| <= |roots'| && roots'[..|roots|] == roots
    requires forall x: nat :: x < |nodes| ==> nodes'[x].position == nodes[n := nodes[n].(key := key)][x].position
    ensures SlotsOk(nodes', roots', slots) && num == |index|
    ensures roots' != [] && forall k :: 0 <= k < |roots'| ==> roots'[k] < |nodes'|
    ensures ContentsOf(nodes', index) == ContentsOf(nodes, index)[nodes[n].tag := key]
    ensures n < |nodes'| && nodes'[n].key == key
    ensures forall c :: c in nodes'[n].children ==> Le(key, nodes'[c].key)
  {
    var raised := nodes[n := nodes[n].(key := key)];
    forall x: nat | x < |nodes| ensures nodes'[x].position == nodes[x].position {
      assert raised[x].position == nodes[x].position;
    }
    SlotsKept(nodes, nodes', roots, roots', slots);
    ContentsSetKey(nodes, index, n, key);
    SameEntriesSameContents(raised, nodes', index);
    assert Live(raised, index, n);
    ChildrenAbove(nodes', index, roots', rank, n);
    forall k | 0 <= k < |roots'| ensures roots'[k] < |nodes'| {
      assert Live(nodes', index, roots'[k]);
    }
    assert nodes[n].tag in index;
    assert min.value in roots'[..|roots|];
  }

  /** After resetMin (internal.go:122-129) the min pointer is right again: a
      least root is least overall. */
  lemma ResetMinOk<T(!new)>(nodes': seq<Node<T>>, index: map<T, nat>, roots': seq<nat>, rank: seq<nat>,
                                  slots: map<nat, nat>, num: nat, m: nat)
    requires Forest(nodes', index, roots', rank, {}) && SlotsOk(nodes', roots', slots) && num == |index|
    requires m in roots' && m < |nodes'| && forall k :: 0 <= k < |roots'| ==> Le(nodes'[m].key, nodes'[roots'[k]].key)
    ensures HeapOk(nodes', index, roots', rank, slots, Some(m), num)
  {
    LeastRootIsLeast(nodes', index, roots', rank, m);
    var k := IndexOf(roots', m);
    assert Live(nodes', index, m);
  }

  /** increaseKey on any other node: the min keeps its key and stays below the raised one. */
  lemma IncreaseKeyKept<T(!new)>(nodes: seq<Node<T>>, index: map<T, nat>, roots: seq<nat>, rank: seq<nat>,
                                 slots: map<nat, nat>, min: Option<nat>, num: nat, n: nat, key: Key,
                                 nodes': seq<Node<T>>, roots': seq<nat>)
    requires HeapOk(nodes, index, roots, rank, slots, min, num) && Live(nodes, index, n) && min != Some(n)
    requires Le(nodes[n].key, key)
    requires Forest(nodes', index, roots', rank, {}) && SameEntries(nodes[n := nodes[n].(key := key)], nodes')
    requires |roots| <= |roots'| && roots'[..|roots|] == roots
    requires SlotsOk(nodes', roots', slots)
    ensures HeapOk(nodes', index, roots', rank, slots, min, num)
  {
    var raised := nodes[n := nodes[n].(key := key)];
    SameEntriesSameContents(raised, nodes', index);
    assert nodes[n].tag in index;
    var m := min.value;
    assert m in roots'[..|roots|];
    assert raised[m] == nodes[m];
    forall x: nat | Live(nodes', index, x) ensures Le(nodes'[m].key, nodes'[x].key) {
      if x == n {
        LeTotalOrder(nodes[m].key, nodes[n].key, key);
      } else {
        assert raised[x] == nodes[x];
      }
    }
  }

  /** increaseKey (internal.go:153-176) on the live node n. */
  method IncreaseKeyAt<T(!new)>(nodes: seq<Node<T>>, index: map<T, nat>, roots: seq<nat>, ghost rank: seq<nat>,
                                slots: map<nat, nat>, min: Option<nat>, num: nat, n: nat, key: Key)
    returns (r: Outcome, nodes': seq<Node<T>>, roots': seq<nat>, min': Option<nat>)
    requires HeapOk(nodes, index, roots, rank, slots, min, num) && Live(nodes, index, n)
    ensures HeapOk(nodes', index, roots', rank, slots, min', num)
    ensures r == if Less(nodes[n].key, key) then Pass else Fail(KeyNotLarger)
    ensures r.Fail? ==> nodes' == nodes && roots' == roots && min' == min
    ensures r.Pass? ==> ContentsOf(nodes', index) == ContentsOf(nodes, index)[nodes[n].tag := key]
    ensures r.Pass? ==> n < |nodes'| && forall c :: c in nodes'[n].children ==> Le(key, nodes'[c].key)
    ensures r.Pass? ==> SameEntries(nodes[n := nodes[n].(key := key)], nodes')
    ensures r.Pass? && min != Some(n) ==> min' == min
  {
    if !Less(nodes[n].key, key) {
      return Fail(KeyNotLarger), nodes, roots, min;
    }
    LeTotalOrder(nodes[n].key, key, key);
    RaiseKeyKeepsForest(nodes, index, roots, rank, {}, n, key);
    var raised := nodes[n := nodes[n].(key := key)];
    assert Live(raised, index, n) && raised[n].children == nodes[n].children;
    nodes', roots' := CutSmallerChildren(raised, index, roots, rank, n);
    IncreaseKeyCommon(nodes, index, roots, rank, slots, min, num, n, key, nodes', roots');
    if min == Some(n) {
      var m := ResetMin(nodes', roots');
      ResetMinOk(nodes', index, roots', rank, slots, num, m);
      min' := Some(m);
    } else {
      IncreaseKeyKept(nodes, index, roots, rank, slots, min, num, n, key, nodes', roots');
      min' := min;
    }
    r := Pass;
  }

  // ---------------------------------------------------------------------------
  // the min pointer and the stored entries

  /** The min pointer names a least entry of the heap. */
  lemma MinIsLeast<T(!new)>(nodes: seq<Node<T>>, index: map<T, nat>, roots: seq<nat>, rank: seq<nat>,
                            slots: map<nat, nat>, min: Option<nat>, num: nat)
    requires HeapOk(nodes, index, roots, rank, slots, min, num) && min.Some?
    ensures Live(nodes, index, min.value)
    ensures ContentsOf(nodes, index)[nodes[min.value].tag] == nodes[min.value].key
    ensures IsLeast(ContentsOf(nodes, index), nodes[min.value].key)
  {
    var m := min.value;
    var k := IndexOf(roots, m);
    ContentsFacts(nodes, index);
    var c := ContentsOf(nodes, index);
    forall t | t in c ensures Le(nodes[m].key, c[t]) {
      assert Live(nodes, index, index[t]);
    }
  }

  /** An empty heap holds nothing; a non-empty one has a root. */
  lemma RootsOfNonEmpty<T(!new)>(nodes: seq<Node<T>>, index: map<T, nat>, roots: seq<nat>, rank: seq<nat>)
    requires Forest(nodes, index, roots, rank, {}) && |index| > 0
    ensures roots != [] && forall k :: 0 <= k < |roots| ==> roots[k] < |nodes|
  {
    var t :| t in index;
    ContentsFacts(nodes, index);
    var r := RootAbove(nodes, index, roots, rank, index[t]);
    forall k | 0 <= k < |roots| ensures roots[k] < |nodes| {
      assert Live(nodes, index, roots[k]);
    }
  }

  // ---------------------------------------------------------------------------
  // insert

  /** Filing a fresh single-node tree keeps the heap invariant, with the min
      pointer moved to it when its key is smaller (internal.go:74-80). */
  lemma InsertKeepsHeap<T(!new)>(nodes: seq<Node<T>>, index: map<T, nat>, roots: seq<nat>, rank: seq<nat>,
                                 slots: map<nat, nat>, min: Option<nat>, num: nat, tag: T, key: Key)
    requires HeapOk(nodes, index, roots, rank, slots, min, num) && tag !in index
    ensures HeapOk(nodes + [Node(tag, key, None, [], false, 0, 0)], index[tag := |nodes|], roots + [|nodes|],
                   rank + [0], slots,
                   if min.None? || Less(key, nodes[min.value].key) then Some(|nodes|) else min, num + 1)
    ensures ContentsOf(nodes + [Node(tag, key, None, [], false, 0, 0)], index[tag := |nodes|])
         == ContentsOf(nodes, index)[tag := key]
  {
    var n := |nodes|;
    var nodes' := nodes + [Node(tag, key, None, [], false, 0, 0)];
    InsertKeepsForest(nodes, index, roots, rank, {}, tag, key);
    InsertContents(nodes, index, tag, key);
    InsertMin(nodes, index, roots, min, num, tag, key);
    forall d | d in slots ensures slots[d] in roots + [n] && nodes'[slots[d]] == nodes[slots[d]] {
    }
  }

  /** The min pointer after insert (internal.go:78-80). */
  lemma InsertMin<T(!new)>(nodes: seq<Node<T>>, index: map<T, nat>, roots: seq<nat>,
                           min: Option<nat>, num: nat, tag: T, key: Key)
    requires IndexOk(nodes, index) && MinOk(nodes, index, roots, min, num) && num == |index| && tag !in index
    ensures MinOk(nodes + [Node(tag, key, None, [], false, 0, 0)], index[tag := |nodes|], roots + [|nodes|],
                  if min.None? || Less(key, nodes[min.value].key) then Some(|nodes|) else min, num + 1)
  {
    var n := |nodes|;
    var nodes' := nodes + [Node(tag, key, None, [], false, 0, 0)];
    var index' := index[tag := n];
    InsertContents(nodes, index, tag, key);
    assert forall x: nat :: x < n ==> nodes'[x] == nodes[x];
    var min' := if min.None? || Less(key, nodes[min.value].key) then Some(n) else min;
    forall x: nat | Live(nodes', index', x) ensures Le(nodes'[min'.value].key, nodes'[x].key) {
      if min'.value == n {
        if x != n {
          assert nodes[x].tag in index;
          LeTotalOrder(key, nodes[min.value].key, nodes[x].key);
        } else {
          LeTotalOrder(key, key, key);
        }
      } else if x == n {
        LeTotalOrder(key, nodes[min.value].key, key);
      }
    }
  }

  /** insert (internal.go:59-83): -inf is refused, then a tag already present;
      otherwise a single-node tree is filed as a new root. */
  method InsertAt<T(!new)>(nodes: seq<Node<T>>, index: map<T, nat>, roots: seq<nat>, ghost rank: seq<nat>,
                           slots: map<nat, nat>, min: Option<nat>, num: nat, tag: T, key: Key)
    returns (r: Outcome, nodes': seq<Node<T>>, index': map<T, nat>, roots': seq<nat>, ghost rank': seq<nat>,
             min': Option<nat>, num': nat)
    requires HeapOk(nodes, index, roots, rank, slots, min, num)
    ensures HeapOk(nodes', index', roots', rank', slots, min', num')
    ensures r == if key == NegInf then Fail(ReservedKey) else if tag in index then Fail(DuplicateTag) else Pass
    ensures r.Fail? ==> nodes' == nodes && index' == index && roots' == roots && min' == min && num' == num
    ensures r.Pass? ==> ContentsOf(nodes', index') == ContentsOf(nodes, index)[tag := key] && num' == num + 1
    ensures r.Pass? ==> nodes' == nodes + [Node(tag, key, None, [], false, 0, 0)] &&
                        index' == index[tag := |nodes|] && roots' == roots + [|nodes|]
    ensures r.Pass? ==> min' == if min.None? || Less(key, nodes[min.value].key) then Some(|nodes|) else min
  {
    if key == NegInf {
      return Fail(ReservedKey), nodes, index, roots, rank, min, num;
    }
    if tag in index {
      return Fail(DuplicateTag), nodes, index, roots, rank, min, num;
    }
    InsertKeepsHeap(nodes, index, roots, rank, slots, min, num, tag, key);
    var n := |nodes|;
    nodes' := nodes + [Node(tag, key, None, [], false, 0, 0)];
    index' := index[tag := n];
    roots' := roots + [n];
    rank' := rank + [0];
    num' := num + 1;
    min' := if min.None? || Less(key, nodes[min.value].key) then Some(n) else min;
    r := Pass;
  }

  // ---------------------------------------------------------------------------
  // extractMin

  /** The loop of extractMin (internal.go:88-94): every child of m is detached
      and appended to the root list, in order. */
  method Promote<T>(nodes: seq<Node<T>>, roots: seq<nat>, m: nat) returns (nodes': seq<Node<T>>, roots': seq<nat>)
    requires m < |nodes| && forall c :: c in nodes[m].children ==> c < |nodes|
    ensures roots' == roots + nodes[m].children && |nodes'| == |nodes|
    ensures forall x: nat :: x < |nodes| ==>
      nodes'[x] == if x in nodes[m].children then nodes[x].(parent := None) else nodes[x]
  {
    var cs := nodes[m].children;
    nodes', roots' := nodes, roots;
    for k := 0 to |cs|
      invariant roots' == roots + cs[..k] && |nodes'| == |nodes|
      invariant forall x: nat :: x < |nodes| ==>
        nodes'[x] == if x in cs[..k] then nodes[x].(parent := None) else nodes[x]
    {
      assert cs[k] in cs;
      assert cs[..k + 1] == cs[..k] + [cs[k]];
      nodes' := nodes'[cs[k] := nodes'[cs[k]].(parent := None)];
      roots' := roots' + [cs[k]];
    }
    assert cs[..|cs|] == cs;
  }

  /** Clearing the slot recorded by the extracted root keeps every other slot
      pointing at a root (internal.go:96). */
  lemma ExtractSlots<T>(nodes: seq<Node<T>>, promoted: seq<Node<T>>, roots: seq<nat>, slots: map<nat, nat>, m: nat)
    requires SlotsOk(nodes, roots, slots) && m < |nodes| && |promoted| == |nodes|
    requires forall x: nat :: x < |nodes| ==>
      promoted[x] == if x in nodes[m].children then nodes[x].(parent := None) else nodes[x]
    ensures SlotsOk(promoted, Without(roots + nodes[m].children, m), slots - {nodes[m].position})
  {
    forall d | d in slots - {nodes[m].position}
      ensures slots[d] in Without(roots + nodes[m].children, m) && promoted[slots[d]].position == d
    {
      assert promoted[slots[d]].position == nodes[slots[d]].position;
    }
  }

  /** The part of extractMin before consolidation keeps the forest and removes
      exactly m's entry. */
  lemma DetachMin<T(!new)>(nodes: seq<Node<T>>, index: map<T, nat>, roots: seq<nat>, rank: seq<nat>,
                           slots: map<nat, nat>, min: Option<nat>, num: nat, promoted: seq<Node<T>>)
    requires HeapOk(nodes, index, roots, rank, slots, min, num) && min.Some?
    requires |promoted| == |nodes|
    requires forall x: nat :: x < |nodes| ==>
      promoted[x] == if x in nodes[min.value].children then nodes[x].(parent := None) else nodes[x]
    ensures var m := min.value;
      Forest(promoted, index - {nodes[m].tag}, Without(roots + nodes[m].children, m), rank, {}) &&
      SlotsOk(promoted, Without(roots + nodes[m].children, m), slots - {nodes[m].position}) &&
      num - 1 == |index - {nodes[m].tag}| &&
      ContentsOf(promoted, index - {nodes[m].tag}) == ContentsOf(nodes, index) - {nodes[m].tag}
  {
    var m := min.value;
    PromoteKeepsForest(nodes, promoted, index, roots, rank, m);
    ExtractSlots(nodes, promoted, roots, slots, m);
    var k := IndexOf(roots, m);
    assert Live(nodes, index, m);
    assert SameEntries(nodes, promoted);
    SameEntriesSameContents(nodes, promoted, index - {nodes[m].tag});
    ContentsRemove(nodes, index, nodes[m].tag);
  }

  /** The children of a live node are in the arena. */
  lemma ChildrenInArena<T(!new)>(nodes: seq<Node<T>>, index: map<T, nat>, roots: seq<nat>, rank: seq<nat>, m: nat)
    requires Forest(nodes, index, roots, rank, {}) && Live(nodes, index, m)
    ensures forall c :: c in nodes[m].children ==> c < |nodes|
  {
    forall c | c in nodes[m].children ensures c < |nodes| {
      assert Live(nodes, index, c);
    }
  }

  /** extractMin (internal.go:85-108): the min node m leaves the heap, its
      children become roots, and unless the heap is now empty the roots are
      consolidated and the min pointer reset. */
  method ExtractMinAt<T(!new)>(nodes: seq<Node<T>>, index: map<T, nat>, roots: seq<nat>, ghost rank: seq<nat>,
                               slots: map<nat, nat>, min: Option<nat>, num: nat)
    returns (m: nat, nodes': seq<Node<T>>, index': map<T, nat>, roots': seq<nat>, ghost rank': seq<nat>,
             slots': map<nat, nat>, min': Option<nat>, num': nat)
    requires HeapOk(nodes, index, roots, rank, slots, min, num) && min.Some?
    ensures m == min.value && Live(nodes, index, m)
    ensures IsLeast(ContentsOf(nodes, index), nodes[m].key)
    ensures ContentsOf(nodes, index)[nodes[m].tag] == nodes[m].key
    ensures HeapOk(nodes', index', roots', rank', slots', min', num')
    ensures ContentsOf(nodes', index') == ContentsOf(nodes, index) - {nodes[m].tag}
    ensures num' == num - 1
  {
    m := min.value;
    MinIsLeast(nodes, index, roots, rank, slots, min, num);
    ChildrenInArena(nodes, index, roots, rank, m);
    var promoted, all := Promote(nodes, roots, m);
    DetachMin(nodes, index, roots, rank, slots, min, num, promoted);
    roots' := Without(all, m);
    slots' := slots - {nodes[m].position};
    index' := index - {nodes[m].tag};
    num' := num - 1;
    if num' == 0 {
      nodes', rank', min' := promoted, rank, None;
    } else {
      nodes', roots', slots', rank' := Consolidation.Consolidate(promoted, index', roots', slots', rank);
      SameEntriesSameContents(promoted, nodes', index');
      RootsOfNonEmpty(nodes', index', roots', rank');
      var least := ResetMin(nodes', roots');
      ResetMinOk(nodes', index', roots', rank', slots', num', least);
      min' := Some(least);
    }
  }

  // ---------------------------------------------------------------------------
  // deleteNode

  /** A live node of a heap without -inf entries does not hold -inf. */
  lemma LiveNotReserved<T(!new)>(nodes: seq<Node<T>>, index: map<T, nat>, n: nat)
    requires NoReservedKey(ContentsOf(nodes, index)) && IndexOk(nodes, index) && Live(nodes, index, n)
    ensures Less(NegInf, nodes[n].key)
  {
    ContentsFacts(nodes, index);
  }

  /** Once a node holds -inf, the only -inf in the heap, the min pointer can
      only name that node. */
  lemma ReservedIsMin<T(!new)>(nodes: seq<Node<T>>, index: map<T, nat>, rank: seq<nat>,
                               slots: map<nat, nat>, num: nat, n: nat,
                               nodes': seq<Node<T>>, roots': seq<nat>, min': Option<nat>)
    requires NoReservedKey(ContentsOf(nodes, index)) && Live(nodes, index, n) && IndexOk(nodes, index)
    requires HeapOk(nodes', index, roots', rank, slots, min', num)
    requires ContentsOf(nodes', index) == ContentsOf(nodes, index)[nodes[n].tag := NegInf]
    ensures min' == Some(n) && n < |nodes'| && nodes'[n].tag == nodes[n].tag
  {
    ContentsFacts(nodes, index);
    ContentsFacts(nodes', index);
    assert Le(nodes'[min'.value].key, nodes'[n].key);
    var k := IndexOf(roots', min'.value);
    assert Live(nodes', index, min'.value);
  }

  /** Overwriting an entry and then removing it is removing it. */
  lemma UpdateThenRemove<T>(c: map<T, Key>, t: T, k: Key)
    ensures c[t := k] - {t} == c - {t}
  {
  }

  /** deleteNode (internal.go:110-113): n's key is lowered to -inf, which makes it
      the min, and the min is extracted. */
  method DeleteNodeAt<T(!new)>(nodes: seq<Node<T>>, index: map<T, nat>, roots: seq<nat>, ghost rank: seq<nat>,
                               slots: map<nat, nat>, min: Option<nat>, num: nat, n: nat)
    returns (nodes': seq<Node<T>>, index': map<T, nat>, roots': seq<nat>, ghost rank': seq<nat>,
             slots': map<nat, nat>, min': Option<nat>, num': nat)
    requires HeapOk(nodes, index, roots, rank, slots, min, num) && NoReservedKey(ContentsOf(nodes, index))
    requires Live(nodes, index, n)
    ensures HeapOk(nodes', index', roots', rank', slots', min', num')
    ensures ContentsOf(nodes', index') == ContentsOf(nodes, index) - {nodes[n].tag}
    ensures num' == num - 1
  {
    LiveNotReserved(nodes, index, n);
    var r, lowered, rs, m := DecreaseKeyAt(nodes, index, roots, rank, slots, min, num, n, NegInf);
    ReservedIsMin(nodes, index, rank, slots, num, n, lowered, rs, m);
    UpdateThenRemove(ContentsOf(nodes, index), nodes[n].tag, NegInf);
    var x;
    x, nodes', index', roots', rank', slots', min', num' := ExtractMinAt(lowered, index, rs, rank, slots, m, num);
  }
}
