/** The node record of types.go and the shape of the forest it builds. Nodes live
    in an arena (`nodes`) and are named by their position in it; `roots` is the
    root list, `index` maps each live tag to its node, and the ghost `rank` gives
    every parent a larger number than its children, so the parent links never
    form a cycle. */
module Forests {
  import opened Util
  import opened Keys

  /** One entry: its tag and key plus the bookkeeping of types.go:17-26.
      `position` is the degree-table slot the node last occupied. */
  datatype Node<T> = Node(tag: T, key: Key, parent: Option<nat>, children: seq<nat>,
                          marked: bool, degree: nat, position: nat)

  /** `x` is the node the index holds under x's tag. */
  ghost predicate Live<T(!new)>(nodes: seq<Node<T>>, index: map<T, nat>, x: nat) {
    x < |nodes| && nodes[x].tag in index && index[nodes[x].tag] == x
  }

  /** Every tag of the index names a node carrying that tag. */
  ghost predicate IndexOk<T(!new)>(nodes: seq<Node<T>>, index: map<T, nat>) {
    forall t :: t in index ==> index[t] < |nodes| && nodes[index[t]].tag == t
  }

  /** The root list holds live, parent-less nodes, each once. */
  ghost predicate RootsOk<T(!new)>(nodes: seq<Node<T>>, index: map<T, nat>, roots: seq<nat>) {
    Distinct(roots) &&
    forall k :: 0 <= k < |roots| ==> Live(nodes, index, roots[k]) && nodes[roots[k]].parent.None?
  }

  /** A live node is on the root list exactly when it has no parent; otherwise
      its parent is live, lists it among its children and has a larger rank. */
  ghost predicate ParentsOk<T(!new)>(nodes: seq<Node<T>>, index: map<T, nat>, roots: seq<nat>, rank: seq<nat>) {
    |rank| == |nodes| &&
    forall x: nat {:trigger nodes[x].parent} :: Live(nodes, index, x) ==>
      if nodes[x].parent.None? then x in roots
      else
        var p := nodes[x].parent.value;
        Live(nodes, index, p) && x in nodes[p].children && rank[x] < rank[p]
  }

  /** A live node's degree is the length of its children list, which holds
      live nodes, each once, each pointing back to it. */
  ghost predicate ChildrenOk<T(!new)>(nodes: seq<Node<T>>, index: map<T, nat>) {
    forall x: nat {:trigger Live(nodes, index, x)} :: Live(nodes, index, x) ==>
      Distinct(nodes[x].children) && nodes[x].degree == |nodes[x].children| &&
      forall c {:trigger c in nodes[x].children} :: c in nodes[x].children ==> Live(nodes, index, c) && nodes[c].parent == Some(x)
  }

  /** Heap order: no live child outside `ex` has a key below its parent's. */
  ghost predicate HeapOrdered<T(!new)>(nodes: seq<Node<T>>, index: map<T, nat>, ex: set<nat>) {
    forall x: nat {:trigger nodes[x].parent} :: Live(nodes, index, x) && x !in ex && nodes[x].parent.Some? && nodes[x].parent.value < |nodes| ==>
      Le(nodes[nodes[x].parent.value].key, nodes[x].key)
  }

  /** The forest invariant; `ex` names the nodes whose link to their parent may
      momentarily break heap order (empty between operations). */
  ghost predicate Forest<T(!new)>(nodes: seq<Node<T>>, index: map<T, nat>, roots: seq<nat>, rank: seq<nat>, ex: set<nat>) {
    IndexOk(nodes, index) && RootsOk(nodes, index, roots) && ParentsOk(nodes, index, roots, rank) &&
    ChildrenOk(nodes, index) && HeapOrdered(nodes, index, ex)
  }

  /** The abstract contents: each live tag with its key. */
  ghost function ContentsOf<T(!new)>(nodes: seq<Node<T>>, index: map<T, nat>): map<T, Key> {
    map t | t in index && index[t] < |nodes| :: nodes[index[t]].key
  }

  /** Two records agree on everything but `marked` and `position`. */
  ghost predicate SameShape<T>(a: Node<T>, b: Node<T>) {
    a.tag == b.tag && a.key == b.key && a.parent == b.parent && a.children == b.children && a.degree == b.degree
  }

  /** Two arenas hold the same tags and keys at every position. */
  ghost predicate SameEntries<T>(a: seq<Node<T>>, b: seq<Node<T>>) {
    |a| == |b| && forall x: nat :: 0 <= x < |a| ==> a[x].tag == b[x].tag && a[x].key == b[x].key
  }

  lemma SameEntriesTrans<T>(a: seq<Node<T>>, b: seq<Node<T>>, c: seq<Node<T>>)
    requires SameEntries(a, b) && SameEntries(b, c)
    ensures SameEntries(a, c)
  {
  }

  /** The arena after `link(p, c)` (internal.go:115-120): c becomes an
      unmarked child of p, the last of p's children, and p's degree grows by
      one, so a degree that counted p's children still does; no tag moves and
      no key changes. */
  function LinkAt<T>(nodes: seq<Node<T>>, p: nat, c: nat): (r: seq<Node<T>>)
    requires p < |nodes| && c < |nodes| && p != c
    ensures SameEntries(nodes, r)
    ensures r[c].parent == Some(p) && !r[c].marked
    ensures r[p].children == nodes[p].children + [c] && r[p].degree == nodes[p].degree + 1
    ensures nodes[p].degree == |nodes[p].children| ==> r[p].degree == |r[p].children|
    ensures Distinct(nodes[p].children) && c !in nodes[p].children ==> Distinct(r[p].children)
  {
    nodes[c := nodes[c].(marked := false, parent := Some(p))]
         [p := nodes[p].(children := nodes[p].children + [c], degree := nodes[p].degree + 1)]
  }

  /** The arena after `cut(n)` (internal.go:178-184); the root list gains n.
      n loses its parent and its mark, its parent p no longer lists it and
      p's degree drops by one, so a degree that counted p's distinct children
      still does; no tag moves and no key changes. */
  function CutAt<T>(nodes: seq<Node<T>>, n: nat): (r: seq<Node<T>>)
    requires n < |nodes| && nodes[n].parent.Some? && nodes[n].parent.value < |nodes|
    requires nodes[n].parent.value != n && nodes[nodes[n].parent.value].degree > 0
    ensures SameEntries(nodes, r)
    ensures r[n].parent.None? && !r[n].marked
    ensures var p := nodes[n].parent.value;
      n !in r[p].children && r[p].degree == nodes[p].degree - 1
    ensures var p := nodes[n].parent.value;
      Distinct(nodes[p].children) && n in nodes[p].children && nodes[p].degree == |nodes[p].children| ==>
        Distinct(r[p].children) && r[p].degree == |r[p].children|
  {
    var p := nodes[n].parent.value;
    nodes[p := nodes[p].(children := Without(nodes[p].children, n), degree := nodes[p].degree - 1)]
         [n := nodes[n].(parent := None, marked := false)]
  }

  // ---------------------------------------------------------------------------
  // Facts about the abstract contents

  lemma ContentsFacts<T(!new)>(nodes: seq<Node<T>>, index: map<T, nat>)
    requires IndexOk(nodes, index)
    ensures ContentsOf(nodes, index).Keys == index.Keys
    ensures |ContentsOf(nodes, index)| == |index|
    ensures forall t :: t in index ==> Live(nodes, index, index[t]) && ContentsOf(nodes, index)[t] == nodes[index[t]].key
    ensures forall x: nat :: Live(nodes, index, x) ==> nodes[x].tag in ContentsOf(nodes, index) && ContentsOf(nodes, index)[nodes[x].tag] == nodes[x].key
  {
    assert ContentsOf(nodes, index).Keys == index.Keys;
    assert |ContentsOf(nodes, index).Keys| == |index.Keys|;
  }

  lemma SameEntriesSameContents<T(!new)>(a: seq<Node<T>>, b: seq<Node<T>>, index: map<T, nat>)
    requires SameEntries(a, b)
    ensures ContentsOf(a, index) == ContentsOf(b, index)
    ensures forall x: nat :: Live(a, index, x) <==> Live(b, index, x)
  {
  }

  /** Appending a fresh node under a fresh tag adds exactly that entry. */
  lemma InsertContents<T(!new)>(nodes: seq<Node<T>>, index: map<T, nat>, tag: T, key: Key)
    requires IndexOk(nodes, index) && tag !in index
    ensures ContentsOf(nodes + [Node(tag, key, None, [], false, 0, 0)], index[tag := |nodes|])
         == ContentsOf(nodes, index)[tag := key]
    ensures forall x: nat ::
      Live(nodes + [Node(tag, key, None, [], false, 0, 0)], index[tag := |nodes|], x) <==>
      x == |nodes| || Live(nodes, index, x)
  {
    var nodes' := nodes + [Node(tag, key, None, [], false, 0, 0)];
    var index' := index[tag := |nodes|];
    forall x: nat ensures Live(nodes', index', x) <==> x == |nodes| || Live(nodes, index, x) {
      if x < |nodes| {
        assert nodes'[x] == nodes[x];
      }
    }
  }

  /** Dropping a tag from the index drops exactly its entry. */
  lemma ContentsRemove<T(!new)>(nodes: seq<Node<T>>, index: map<T, nat>, tag: T)
    ensures ContentsOf(nodes, index - {tag}) == ContentsOf(nodes, index) - {tag}
  {
  }

  /** Rewriting one live node's key rewrites exactly its tag's entry. */
  lemma ContentsSetKey<T(!new)>(nodes: seq<Node<T>>, index: map<T, nat>, n: nat, key: Key)
    requires IndexOk(nodes, index) && Live(nodes, index, n)
    ensures ContentsOf(nodes[n := nodes[n].(key := key)], index) == ContentsOf(nodes, index)[nodes[n].tag := key]
  {
  }

  // ---------------------------------------------------------------------------
  // The forest invariant across each pointer surgery

  /** Changing only marks and degree-table positions keeps the forest. */
  lemma ReshapeKeepsForest<T(!new)>(nodes: seq<Node<T>>, nodes': seq<Node<T>>, index: map<T, nat>,
                                    roots: seq<nat>, rank: seq<nat>, ex: set<nat>)
    requires Forest(nodes, index, roots, rank, ex)
    requires |nodes'| == |nodes| && forall x: nat :: 0 <= x < |nodes| ==> SameShape(nodes[x], nodes'[x])
    ensures Forest(nodes', index, roots, rank, ex)
  {
    assert forall x: nat :: Live(nodes', index, x) <==> Live(nodes, index, x);
  }

  /** The root list may be reordered freely. */
  lemma RootsPermKeepsForest<T(!new)>(nodes: seq<Node<T>>, index: map<T, nat>, roots: seq<nat>,
                                      roots': seq<nat>, rank: seq<nat>, ex: set<nat>)
    requires Forest(nodes, index, roots, rank, ex)
    requires Distinct(roots') && forall x: nat :: x in roots' <==> x in roots
    ensures Forest(nodes, index, roots', rank, ex)
  {
    forall k | 0 <= k < |roots'|
      ensures Live(nodes, index, roots'[k]) && nodes[roots'[k]].parent.None?
    {
      assert roots'[k] in roots;
    }
  }

  /** An exempt node whose link is in order (or that is a root) needs no exemption. */
  lemma ReleaseExempt<T(!new)>(nodes: seq<Node<T>>, index: map<T, nat>, roots: seq<nat>,
                               rank: seq<nat>, ex: set<nat>, x: nat)
    requires Forest(nodes, index, roots, rank, ex)
    requires x < |nodes| && nodes[x].parent.Some? && nodes[x].parent.value < |nodes| ==>
               Le(nodes[nodes[x].parent.value].key, nodes[x].key)
    ensures Forest(nodes, index, roots, rank, ex - {x})
  {
  }

  /** insert (internal.go:68-76): a fresh parent-less, childless node appended to the arena and the roots. */
  lemma InsertKeepsForest<T(!new)>(nodes: seq<Node<T>>, index: map<T, nat>, roots: seq<nat>,
                                   rank: seq<nat>, ex: set<nat>, tag: T, key: Key)
    requires Forest(nodes, index, roots, rank, ex) && tag !in index
    ensures Forest(nodes + [Node(tag, key, None, [], false, 0, 0)], index[tag := |nodes|],
                   roots + [|nodes|], rank + [0], ex)
  {
    InsertContents(nodes, index, tag, key);
    InsertRoots(nodes, index, roots, tag, key);
    InsertParents(nodes, index, roots, rank, tag, key);
    InsertChildren(nodes, index, tag, key);
    InsertOrder(nodes, index, roots, rank, ex, tag, key);
  }

  lemma InsertRoots<T(!new)>(nodes: seq<Node<T>>, index: map<T, nat>, roots: seq<nat>, tag: T, key: Key)
    requires IndexOk(nodes, index) && RootsOk(nodes, index, roots) && tag !in index
    ensures RootsOk(nodes + [Node(tag, key, None, [], false, 0, 0)], index[tag := |nodes|], roots + [|nodes|])
  {
    var n := |nodes|;
    var nodes' := nodes + [Node(tag, key, None, [], false, 0, 0)];
    var index' := index[tag := n];
    InsertContents(nodes, index, tag, key);
    assert n !in roots;
    DistinctAppend(roots, n);
    forall k | 0 <= k < |roots + [n]|
      ensures Live(nodes', index', (roots + [n])[k]) && nodes'[(roots + [n])[k]].parent.None?
    {
      if k < |roots| {
        assert (roots + [n])[k] == roots[k];
      }
    }
  }

  lemma InsertParents<T(!new)>(nodes: seq<Node<T>>, index: map<T, nat>, roots: seq<nat>, rank: seq<nat>, tag: T, key: Key)
    requires IndexOk(nodes, index) && ParentsOk(nodes, index, roots, rank) && tag !in index
    ensures ParentsOk(nodes + [Node(tag, key, None, [], false, 0, 0)], index[tag := |nodes|], roots + [|nodes|], rank + [0])
  {
    var n := |nodes|;
    var nodes' := nodes + [Node(tag, key, None, [], false, 0, 0)];
    var index' := index[tag := n];
    InsertContents(nodes, index, tag, key);
    assert forall x: nat :: x < n ==> nodes'[x] == nodes[x];
  }

  lemma InsertChildren<T(!new)>(nodes: seq<Node<T>>, index: map<T, nat>, tag: T, key: Key)
    requires IndexOk(nodes, index) && ChildrenOk(nodes, index) && tag !in index
    ensures ChildrenOk(nodes + [Node(tag, key, None, [], false, 0, 0)], index[tag := |nodes|])
  {
    var n := |nodes|;
    var nodes' := nodes + [Node(tag, key, None, [], false, 0, 0)];
    var index' := index[tag := n];
    InsertContents(nodes, index, tag, key);
    forall x: nat | Live(nodes', index', x)
      ensures Distinct(nodes'[x].children) && nodes'[x].degree == |nodes'[x].children|
      ensures forall c :: c in nodes'[x].children ==> Live(nodes', index', c) && nodes'[c].parent == Some(x)
    {
      if x < n {
        assert nodes'[x] == nodes[x] && Live(nodes, index, x);
        forall c | c in nodes'[x].children ensures Live(nodes', index', c) && nodes'[c].parent == Some(x) {
          assert Live(nodes, index, c);
        }
      }
    }
  }

  lemma InsertOrder<T(!new)>(nodes: seq<Node<T>>, index: map<T, nat>, roots: seq<nat>, rank: seq<nat>,
                             ex: set<nat>, tag: T, key: Key)
    requires IndexOk(nodes, index) && ParentsOk(nodes, index, roots, rank) && HeapOrdered(nodes, index, ex)
    requires tag !in index
    ensures HeapOrdered(nodes + [Node(tag, key, None, [], false, 0, 0)], index[tag := |nodes|], ex)
  {
    var n := |nodes|;
    var nodes' := nodes + [Node(tag, key, None, [], false, 0, 0)];
    var index' := index[tag := n];
    InsertContents(nodes, index, tag, key);
    forall x: nat | Live(nodes', index', x) && x !in ex && nodes'[x].parent.Some? && nodes'[x].parent.value < |nodes'|
      ensures Le(nodes'[nodes'[x].parent.value].key, nodes'[x].key)
    {
      assert x < n && nodes'[x] == nodes[x] && Live(nodes, index, x);
      assert Live(nodes, index, nodes[x].parent.value);
      assert nodes'[nodes[x].parent.value] == nodes[nodes[x].parent.value];
    }
  }

  /** Two arenas agree on tags and on every link field. */
  ghost predicate SameLinks<T>(a: seq<Node<T>>, b: seq<Node<T>>) {
    |a| == |b| &&
    forall x: nat :: x < |a| ==>
      a[x].tag == b[x].tag && a[x].parent == b[x].parent && a[x].children == b[x].children && a[x].degree == b[x].degree
  }

  /** Two arenas agree on every tag. */
  ghost predicate SameTags<T>(a: seq<Node<T>>, b: seq<Node<T>>) {
    |a| == |b| && forall x: nat :: x < |a| ==> a[x].tag == b[x].tag
  }

  lemma SameTagsSameLive<T(!new)>(a: seq<Node<T>>, b: seq<Node<T>>, index: map<T, nat>)
    requires SameTags(a, b)
    ensures forall x: nat :: Live(a, index, x) <==> Live(b, index, x)
    ensures IndexOk(a, index) <==> IndexOk(b, index)
  {
  }

  /** Changing keys, marks or positions leaves every link invariant in place. */
  lemma SameLinksKeepStructure<T(!new)>(nodes: seq<Node<T>>, nodes': seq<Node<T>>, index: map<T, nat>,
                                        roots: seq<nat>, rank: seq<nat>)
    requires SameLinks(nodes, nodes')
    requires IndexOk(nodes, index) && RootsOk(nodes, index, roots)
    requires ParentsOk(nodes, index, roots, rank) && ChildrenOk(nodes, index)
    ensures IndexOk(nodes', index) && RootsOk(nodes', index, roots)
    ensures ParentsOk(nodes', index, roots, rank) && ChildrenOk(nodes', index)
  {
    SameTagsSameLive(nodes, nodes', index);
  }

  // --- link ------------------------------------------------------------------

  /** link(p, c) (internal.go:115-120) on a root c already taken off the root list,
      under a root p whose key is no larger. The parent's rank is raised past the child's. */
  lemma LinkKeepsForest<T(!new)>(nodes: seq<Node<T>>, index: map<T, nat>, roots: seq<nat>,
                                 rank: seq<nat>, p: nat, c: nat)
    requires Forest(nodes, index, roots + [c], rank, {})
    requires p < |nodes| && c < |nodes| && p in roots && Le(nodes[p].key, nodes[c].key)
    ensures p != c
    ensures Forest(LinkAt(nodes, p, c), index, roots, rank[p := Max(rank[p], rank[c] + 1)], {})
  {
    DistinctPrefix(roots, c);
    var rs := roots + [c];
    assert rs[|roots|] == c;
    var kp := IndexOf(roots, p);
    assert rs[kp] == p;
    assert Live(nodes, index, p) && Live(nodes, index, c);
    assert nodes[p].parent.None? && nodes[c].parent.None?;
    var nodes' := LinkAt(nodes, p, c);
    SameTagsSameLive(nodes, nodes', index);
    LinkRoots(nodes, index, roots, p, c);
    LinkParents(nodes, index, roots, rank, p, c);
    LinkChildren(nodes, index, p, c);
    LinkOrder(nodes, index, p, c);
  }

  lemma LinkRoots<T(!new)>(nodes: seq<Node<T>>, index: map<T, nat>, roots: seq<nat>, p: nat, c: nat)
    requires RootsOk(nodes, index, roots + [c]) && Distinct(roots) && c !in roots
    requires p < |nodes| && c < |nodes| && p != c
    requires forall x: nat :: Live(LinkAt(nodes, p, c), index, x) <==> Live(nodes, index, x)
    ensures RootsOk(LinkAt(nodes, p, c), index, roots)
  {
    var rs := roots + [c];
    forall k | 0 <= k < |roots|
      ensures Live(LinkAt(nodes, p, c), index, roots[k]) && LinkAt(nodes, p, c)[roots[k]].parent.None?
    {
      assert rs[k] == roots[k];
    }
  }

  lemma LinkParents<T(!new)>(nodes: seq<Node<T>>, index: map<T, nat>, roots: seq<nat>, rank: seq<nat>, p: nat, c: nat)
    requires ParentsOk(nodes, index, roots + [c], rank)
    requires p < |nodes| && c < |nodes| && p != c && p in roots
    requires Live(nodes, index, p) && Live(nodes, index, c) && nodes[p].parent.None?
    requires forall x: nat :: Live(LinkAt(nodes, p, c), index, x) <==> Live(nodes, index, x)
    ensures ParentsOk(LinkAt(nodes, p, c), index, roots, rank[p := Max(rank[p], rank[c] + 1)])
  {
    var nodes' := LinkAt(nodes, p, c);
    var rank' := rank[p := Max(rank[p], rank[c] + 1)];
    forall x: nat | Live(nodes', index, x)
      ensures if nodes'[x].parent.None? then x in roots
              else var q := nodes'[x].parent.value;
                Live(nodes', index, q) && x in nodes'[q].children && rank'[x] < rank'[q]
    {
      if x == c {
        assert c in nodes'[p].children;
      } else if x == p {
      } else if nodes[x].parent.None? {
        assert x in roots + [c];
      } else {
        var q := nodes[x].parent.value;
        assert x in nodes[q].children;
        if q == p {
          assert x in nodes'[p].children;
        }
      }
    }
  }

  lemma LinkChildren<T(!new)>(nodes: seq<Node<T>>, index: map<T, nat>, p: nat, c: nat)
    requires ChildrenOk(nodes, index)
    requires p < |nodes| && c < |nodes| && p != c
    requires Live(nodes, index, p) && Live(nodes, index, c) && nodes[c].parent.None?
    requires forall x: nat :: Live(LinkAt(nodes, p, c), index, x) <==> Live(nodes, index, x)
    ensures ChildrenOk(LinkAt(nodes, p, c), index)
  {
    var nodes' := LinkAt(nodes, p, c);
    assert c !in nodes[p].children;
    forall x: nat | Live(nodes', index, x)
      ensures Distinct(nodes'[x].children) && nodes'[x].degree == |nodes'[x].children| &&
        forall d :: d in nodes'[x].children ==> Live(nodes', index, d) && nodes'[d].parent == Some(x)
    {
      if x == p {
        DistinctAppend(nodes[p].children, c);
      } else {
        forall d | d in nodes'[x].children ensures Live(nodes', index, d) && nodes'[d].parent == Some(x) {
          assert nodes[d].parent == Some(x);
        }
      }
    }
  }

  lemma LinkOrder<T(!new)>(nodes: seq<Node<T>>, index: map<T, nat>, p: nat, c: nat)
    requires HeapOrdered(nodes, index, {})
    requires p < |nodes| && c < |nodes| && p != c && Le(nodes[p].key, nodes[c].key)
    requires forall x: nat :: Live(LinkAt(nodes, p, c), index, x) <==> Live(nodes, index, x)
    ensures HeapOrdered(LinkAt(nodes, p, c), index, {})
  {
  }

  // --- cut -------------------------------------------------------------------

  /** cut(n) (internal.go:178-184): n leaves its parent's children and joins the roots. */
  lemma CutKeepsForest<T(!new)>(nodes: seq<Node<T>>, index: map<T, nat>, roots: seq<nat>,
                                rank: seq<nat>, ex: set<nat>, n: nat)
    requires Forest(nodes, index, roots, rank, ex) && Live(nodes, index, n) && nodes[n].parent.Some?
    ensures var p := nodes[n].parent.value;
      p < |nodes| && p != n && n in nodes[p].children && nodes[p].degree > 0 &&
      rank[n] < rank[p] && Live(nodes, index, p)
    ensures n !in roots
    ensures Forest(CutAt(nodes, n), index, roots + [n], rank, ex)
  {
    var p := nodes[n].parent.value;
    assert Live(nodes, index, p) && n in nodes[p].children && rank[n] < rank[p];
    assert nodes[p].degree == |nodes[p].children| > 0;
    assert n !in roots;
    SameTagsSameLive(nodes, CutAt(nodes, n), index);
    CutRoots(nodes, index, roots, n);
    CutParents(nodes, index, roots, rank, n);
    CutChildren(nodes, index, rank, n);
    CutOrder(nodes, index, ex, n);
  }

  lemma CutOrder<T(!new)>(nodes: seq<Node<T>>, index: map<T, nat>, ex: set<nat>, n: nat)
    requires HeapOrdered(nodes, index, ex)
    requires n < |nodes| && nodes[n].parent.Some? && nodes[n].parent.value < |nodes| && nodes[n].parent.value != n
    requires nodes[nodes[n].parent.value].degree > 0
    requires forall x: nat :: Live(CutAt(nodes, n), index, x) <==> Live(nodes, index, x)
    ensures HeapOrdered(CutAt(nodes, n), index, ex)
  {
  }

  lemma CutRoots<T(!new)>(nodes: seq<Node<T>>, index: map<T, nat>, roots: seq<nat>, n: nat)
    requires RootsOk(nodes, index, roots) && n !in roots && Live(nodes, index, n)
    requires nodes[n].parent.Some? && nodes[n].parent.value < |nodes| && nodes[n].parent.value != n
    requires nodes[nodes[n].parent.value].degree > 0
    requires forall x: nat :: Live(CutAt(nodes, n), index, x) <==> Live(nodes, index, x)
    ensures RootsOk(CutAt(nodes, n), index, roots + [n])
  {
    var nodes' := CutAt(nodes, n);
    var roots' := roots + [n];
    DistinctAppend(roots, n);
    forall k | 0 <= k < |roots'| ensures Live(nodes', index, roots'[k]) && nodes'[roots'[k]].parent.None? {
      if k < |roots| {
        assert roots'[k] == roots[k];
      }
    }
  }

  lemma CutParents<T(!new)>(nodes: seq<Node<T>>, index: map<T, nat>, roots: seq<nat>, rank: seq<nat>, n: nat)
    requires ParentsOk(nodes, index, roots, rank) && Live(nodes, index, n)
    requires nodes[n].parent.Some? && nodes[n].parent.value < |nodes| && nodes[n].parent.value != n
    requires nodes[nodes[n].parent.value].degree > 0
    requires forall x: nat :: Live(CutAt(nodes, n), index, x) <==> Live(nodes, index, x)
    ensures ParentsOk(CutAt(nodes, n), index, roots + [n], rank)
  {
    var p := nodes[n].parent.value;
    var nodes' := CutAt(nodes, n);
    var roots' := roots + [n];
    forall x: nat | Live(nodes', index, x)
      ensures if nodes'[x].parent.None? then x in roots'
              else var q := nodes'[x].parent.value;
                Live(nodes', index, q) && x in nodes'[q].children && rank[x] < rank[q]
    {
      if x == n {
      } else if nodes[x].parent.None? {
      } else {
        var q := nodes[x].parent.value;
        assert x in nodes[q].children;
        if q == p {
          assert x in Without(nodes[p].children, n);
        }
      }
    }
  }

  lemma CutChildren<T(!new)>(nodes: seq<Node<T>>, index: map<T, nat>, rank: seq<nat>, n: nat)
    requires ChildrenOk(nodes, index) && Live(nodes, index, n)
    requires nodes[n].parent.Some? && nodes[n].parent.value < |nodes| && nodes[n].parent.value != n
    requires Live(nodes, index, nodes[n].parent.value) && n in nodes[nodes[n].parent.value].children
    requires forall x: nat :: Live(CutAt(nodes, n), index, x) <==> Live(nodes, index, x)
    ensures ChildrenOk(CutAt(nodes, n), index)
  {
    var p := nodes[n].parent.value;
    var nodes' := CutAt(nodes, n);
    forall x: nat | Live(nodes', index, x)
      ensures Distinct(nodes'[x].children) && nodes'[x].degree == |nodes'[x].children| &&
        forall d :: d in nodes'[x].children ==> Live(nodes', index, d) && nodes'[d].parent == Some(x)
    {
      if x == p {
        forall d | d in nodes'[x].children ensures Live(nodes', index, d) && nodes'[d].parent == Some(x) {
          assert d in nodes[p].children && d != n;
        }
      } else {
        forall d | d in nodes'[x].children ensures Live(nodes', index, d) && nodes'[d].parent == Some(x) {
          assert d in nodes[x].children;
          assert nodes[d].parent == Some(x);
        }
      }
    }
  }

  // --- promotion of the minimum's children ------------------------------------

  /** The first half of extractMin (internal.go:88-98): the children of root m
      lose their parent and join the roots, then m leaves the roots and the index. */
  lemma PromoteKeepsForest<T(!new)>(nodes: seq<Node<T>>, nodes': seq<Node<T>>, index: map<T, nat>,
                                    roots: seq<nat>, rank: seq<nat>, m: nat)
    requires Forest(nodes, index, roots, rank, {}) && m in roots
    requires |nodes'| == |nodes|
    requires forall x: nat :: x < |nodes| ==>
      nodes'[x] == if x in nodes[m].children then nodes[x].(parent := None) else nodes[x]
    ensures m < |nodes| && m !in nodes[m].children
    ensures Forest(nodes', index - {nodes[m].tag}, Without(roots + nodes[m].children, m), rank, {})
  {
    var cs := nodes[m].children;
    var km := IndexOf(roots, m);
    assert Live(nodes, index, m) && nodes[m].parent.None?;
    assert m !in cs;
    assert forall x :: x in roots ==> x !in cs by {
      forall x | x in roots ensures x !in cs {
        var k := IndexOf(roots, x);
      }
    }
    DistinctConcat(roots, cs);
    PromoteLive(nodes, nodes', index, m);
    PromoteRoots(nodes, nodes', index, roots, m);
    PromoteParents(nodes, nodes', index, roots, rank, m);
    PromoteChildren(nodes, nodes', index, m);
    PromoteOrder(nodes, nodes', index, m);
  }

  lemma PromoteLive<T(!new)>(nodes: seq<Node<T>>, nodes': seq<Node<T>>, index: map<T, nat>, m: nat)
    requires IndexOk(nodes, index) && Live(nodes, index, m)
    requires |nodes'| == |nodes|
    requires forall x: nat :: x < |nodes| ==>
      nodes'[x] == if x in nodes[m].children then nodes[x].(parent := None) else nodes[x]
    ensures IndexOk(nodes', index - {nodes[m].tag})
    ensures forall x: nat :: Live(nodes', index - {nodes[m].tag}, x) <==> Live(nodes, index, x) && x != m
  {
  }

  lemma PromoteRoots<T(!new)>(nodes: seq<Node<T>>, nodes': seq<Node<T>>, index: map<T, nat>, roots: seq<nat>, m: nat)
    requires RootsOk(nodes, index, roots) && Live(nodes, index, m) && m !in nodes[m].children
    requires ChildrenOk(nodes, index)
    requires Distinct(roots + nodes[m].children)
    requires |nodes'| == |nodes|
    requires forall x: nat :: x < |nodes| ==>
      nodes'[x] == if x in nodes[m].children then nodes[x].(parent := None) else nodes[x]
    requires forall x: nat :: Live(nodes', index - {nodes[m].tag}, x) <==> Live(nodes, index, x) && x != m
    ensures RootsOk(nodes', index - {nodes[m].tag}, Without(roots + nodes[m].children, m))
  {
    var rs := roots + nodes[m].children;
    var roots' := Without(rs, m);
    forall k | 0 <= k < |roots'|
      ensures Live(nodes', index - {nodes[m].tag}, roots'[k]) && nodes'[roots'[k]].parent.None?
    {
      var x := roots'[k];
      assert x in rs && x != m;
      if x in roots {
        var j := IndexOf(roots, x);
      }
    }
  }

  lemma PromoteParents<T(!new)>(nodes: seq<Node<T>>, nodes': seq<Node<T>>, index: map<T, nat>,
                                roots: seq<nat>, rank: seq<nat>, m: nat)
    requires ParentsOk(nodes, index, roots, rank) && ChildrenOk(nodes, index)
    requires Live(nodes, index, m) && nodes[m].parent.None? && m !in nodes[m].children
    requires |nodes'| == |nodes|
    requires forall x: nat :: x < |nodes| ==>
      nodes'[x] == if x in nodes[m].children then nodes[x].(parent := None) else nodes[x]
    requires forall x: nat :: Live(nodes', index - {nodes[m].tag}, x) <==> Live(nodes, index, x) && x != m
    ensures ParentsOk(nodes', index - {nodes[m].tag}, Without(roots + nodes[m].children, m), rank)
  {
    var cs := nodes[m].children;
    var index' := index - {nodes[m].tag};
    var roots' := Without(roots + cs, m);
    forall x: nat | Live(nodes', index', x)
      ensures if nodes'[x].parent.None? then x in roots'
              else var q := nodes'[x].parent.value;
                Live(nodes', index', q) && x in nodes'[q].children && rank[x] < rank[q]
    {
      if x in cs {
        assert x in roots + cs;
      } else if nodes[x].parent.None? {
        assert x in roots + cs;
      } else {
        var q := nodes[x].parent.value;
        assert q != m;
      }
    }
  }

  lemma PromoteChildren<T(!new)>(nodes: seq<Node<T>>, nodes': seq<Node<T>>, index: map<T, nat>, m: nat)
    requires ChildrenOk(nodes, index)
    requires Live(nodes, index, m) && nodes[m].parent.None? && m !in nodes[m].children
    requires |nodes'| == |nodes|
    requires forall x: nat :: x < |nodes| ==>
      nodes'[x] == if x in nodes[m].children then nodes[x].(parent := None) else nodes[x]
    requires forall x: nat :: Live(nodes', index - {nodes[m].tag}, x) <==> Live(nodes, index, x) && x != m
    ensures ChildrenOk(nodes', index - {nodes[m].tag})
  {
    var cs := nodes[m].children;
    var index' := index - {nodes[m].tag};
    forall x: nat | Live(nodes', index', x)
      ensures Distinct(nodes'[x].children) && nodes'[x].degree == |nodes'[x].children| &&
        forall d :: d in nodes'[x].children ==> Live(nodes', index', d) && nodes'[d].parent == Some(x)
    {
      forall d | d in nodes'[x].children ensures Live(nodes', index', d) && nodes'[d].parent == Some(x) {
        assert d in nodes[x].children;
        assert nodes[d].parent == Some(x);
        assert d !in cs;
      }
    }
  }

  lemma PromoteOrder<T(!new)>(nodes: seq<Node<T>>, nodes': seq<Node<T>>, index: map<T, nat>, m: nat)
    requires HeapOrdered(nodes, index, {}) && m < |nodes|
    requires |nodes'| == |nodes|
    requires forall x: nat :: x < |nodes| ==>
      nodes'[x] == if x in nodes[m].children then nodes[x].(parent := None) else nodes[x]
    requires forall x: nat :: Live(nodes', index - {nodes[m].tag}, x) <==> Live(nodes, index, x) && x != m
    ensures HeapOrdered(nodes', index - {nodes[m].tag}, {})
  {
    var index' := index - {nodes[m].tag};
    forall x: nat | Live(nodes', index', x) && nodes'[x].parent.Some? && nodes'[x].parent.value < |nodes'|
      ensures Le(nodes'[nodes'[x].parent.value].key, nodes'[x].key)
    {
      assert x !in nodes[m].children;
    }
  }

  // --- key changes -------------------------------------------------------------

  /** decreaseKey's assignment (internal.go:136): only the link above n may break heap order. */
  lemma LowerKeyKeepsForest<T(!new)>(nodes: seq<Node<T>>, index: map<T, nat>, roots: seq<nat>,
                                     rank: seq<nat>, ex: set<nat>, n: nat, k: Key)
    requires Forest(nodes, index, roots, rank, ex) && Live(nodes, index, n) && Le(k, nodes[n].key)
    ensures Forest(nodes[n := nodes[n].(key := k)], index, roots, rank, ex + {n})
  {
    var nodes' := nodes[n := nodes[n].(key := k)];
    SameLinksKeepStructure(nodes, nodes', index, roots, rank);
    LowerKeyOrder(nodes, index, ex, n, k);
  }

  lemma LowerKeyOrder<T(!new)>(nodes: seq<Node<T>>, index: map<T, nat>, ex: set<nat>, n: nat, k: Key)
    requires HeapOrdered(nodes, index, ex) && n < |nodes| && Le(k, nodes[n].key)
    ensures HeapOrdered(nodes[n := nodes[n].(key := k)], index, ex + {n})
  {
    var nodes' := nodes[n := nodes[n].(key := k)];
    SameTagsSameLive(nodes, nodes', index);
    forall x: nat | Live(nodes', index, x) && x !in ex + {n} && nodes'[x].parent.Some? && nodes'[x].parent.value < |nodes'|
      ensures Le(nodes'[nodes'[x].parent.value].key, nodes'[x].key)
    {
      var q := nodes[x].parent.value;
      if q == n {
        LeTotalOrder(k, nodes[n].key, nodes[x].key);
      }
    }
  }

  /** increaseKey's assignment (internal.go:158): only the links below n may break heap order. */
  lemma RaiseKeyKeepsForest<T(!new)>(nodes: seq<Node<T>>, index: map<T, nat>, roots: seq<nat>,
                                     rank: seq<nat>, ex: set<nat>, n: nat, k: Key)
    requires Forest(nodes, index, roots, rank, ex) && Live(nodes, index, n) && Le(nodes[n].key, k)
    ensures Forest(nodes[n := nodes[n].(key := k)], index, roots, rank, ex + Elems(nodes[n].children))
  {
    var nodes' := nodes[n := nodes[n].(key := k)];
    SameLinksKeepStructure(nodes, nodes', index, roots, rank);
    RaiseKeyOrder(nodes, index, roots, rank, ex, n, k);
  }

  lemma RaiseKeyOrder<T(!new)>(nodes: seq<Node<T>>, index: map<T, nat>, roots: seq<nat>, rank: seq<nat>,
                               ex: set<nat>, n: nat, k: Key)
    requires HeapOrdered(nodes, index, ex) && ParentsOk(nodes, index, roots, rank)
    requires n < |nodes| && Le(nodes[n].key, k)
    ensures HeapOrdered(nodes[n := nodes[n].(key := k)], index, ex + Elems(nodes[n].children))
  {
    var nodes' := nodes[n := nodes[n].(key := k)];
    var ex' := ex + Elems(nodes[n].children);
    SameTagsSameLive(nodes, nodes', index);
    forall x: nat | Live(nodes', index, x) && x !in ex' && nodes'[x].parent.Some? && nodes'[x].parent.value < |nodes'|
      ensures Le(nodes'[nodes'[x].parent.value].key, nodes'[x].key)
    {
      var q := nodes[x].parent.value;
      assert x in nodes[q].children;
      if x == n {
        LeTotalOrder(nodes[q].key, nodes[n].key, k);
      }
    }
  }

  /** Walking up the parent links from any live node reaches a root whose key is
      no larger: the minimum of the roots is the minimum of the heap. */
  lemma RootAbove<T(!new)>(nodes: seq<Node<T>>, index: map<T, nat>, roots: seq<nat>, rank: seq<nat>, x: nat)
    returns (r: nat)
    requires Forest(nodes, index, roots, rank, {}) && Live(nodes, index, x)
    ensures r in roots && r < |nodes| && Le(nodes[r].key, nodes[x].key)
    decreases SeqMax(rank) - rank[x]
  {
    if nodes[x].parent.None? {
      r := x;
      LeTotalOrder(nodes[x].key, nodes[x].key, nodes[x].key);
    } else {
      var p := nodes[x].parent.value;
      r := RootAbove(nodes, index, roots, rank, p);
      LeTotalOrder(nodes[r].key, nodes[p].key, nodes[x].key);
    }
  }
}
