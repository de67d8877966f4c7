/** The public API of fibheap.go over the struct of types.go: a class whose
    fields are those of the Go `FibHeap` struct, with the nodes kept in an arena
    (`nodes`) and referred to by position. Each method is the Go method of the
    same name; the work is done by the operations of module Internal. */
module FibHeaps {
  import opened Util
  import opened Keys
  import opened Forests
  import opened Internal

  /** The entries of `theirs` whose tags are no longer `remaining`. */
  ghost function Copied<T(!new)>(theirs: map<T, Key>, remaining: set<T>): (r: map<T, Key>)
    ensures forall t :: t in r <==> t in theirs && t !in remaining
  {
    map t | t in theirs && t !in remaining :: theirs[t]
  }

  /** No tag of the second arena's index is in the first's, so their entries are disjoint. */
  lemma DisjointTags<T(!new)>(nodes: seq<Node<T>>, index: map<T, nat>, source: seq<Node<T>>, sourceIndex: map<T, nat>)
    requires IndexOk(nodes, index) && IndexOk(source, sourceIndex)
    requires forall t :: t in sourceIndex ==> t !in index
    ensures ContentsOf(nodes, index).Keys !! ContentsOf(source, sourceIndex).Keys
  {
  }

  /** Removing an absent tag changes nothing. */
  lemma RemoveAbsent<T>(entries: map<T, Key>, t: T)
    requires t !in entries
    ensures entries - {t} == entries
  {
  }

  /** Nothing copied over yet: the entries are unchanged. */
  lemma CopyStart<T(!new)>(mine: map<T, Key>, source: seq<Node<T>>, sourceIndex: map<T, nat>)
    requires IndexOk(source, sourceIndex)
    ensures mine + Copied(ContentsOf(source, sourceIndex), sourceIndex.Keys) == mine
  {
    assert Copied(ContentsOf(source, sourceIndex), sourceIndex.Keys) == map[];
  }

  /** A tag of `theirs` still to copy is not stored yet, holds a key other than
      -inf, and copying it adds exactly its entry. */
  lemma CopyStep<T(!new)>(mine: map<T, Key>, theirs: map<T, Key>, remaining: set<T>, t: T)
    requires mine.Keys !! theirs.Keys && NoReservedKey(theirs)
    requires t in theirs && t in remaining
    ensures t !in mine + Copied(theirs, remaining) && theirs[t] != NegInf
    ensures mine + Copied(theirs, remaining - {t}) == (mine + Copied(theirs, remaining))[t := theirs[t]]
  {
  }

  /** Everything copied over: all of the entries. */
  lemma CopyDone<T(!new)>(mine: map<T, Key>, theirs: map<T, Key>)
    requires NoReservedKey(mine) && NoReservedKey(theirs)
    ensures mine + Copied(theirs, {}) == mine + theirs && NoReservedKey(mine + theirs)
  {
    assert Copied(theirs, {}) == theirs;
  }

  /** A successful Union of disjoint heaps (fibheap.go:73-77): the count is the
      sum of both counts and the least key is the smaller of the two least keys. */
  lemma UnionCountAndLeast<T>(mine: map<T, Key>, theirs: map<T, Key>, ka: Key, kb: Key)
    requires mine.Keys !! theirs.Keys
    ensures |mine + theirs| == |mine| + |theirs|
    ensures IsLeast(mine, ka) && IsLeast(theirs, kb) ==> IsLeast(mine + theirs, Smaller(ka, kb))
  {
    assert (mine + theirs).Keys == mine.Keys + theirs.Keys;
    if IsLeast(mine, ka) && IsLeast(theirs, kb) {
      LeastOfUnion(mine, theirs, ka, kb);
    }
  }

  class FibHeap<T(==, !new)> {
    var nodes: seq<Node<T>>
    var roots: seq<nat>
    var index: map<T, nat>
    /** Degree -> the root last filed under that degree; a nil slot is an absent key. */
    var treeDegrees: map<nat, nat>
    var min: Option<nat>
    var num: nat
    /** Parent ranks exceed child ranks: the parent links are acyclic. */
    ghost var rank: seq<nat>
    /** The zero value of the tag type, returned for an empty heap. */
    const zero: T

    /** The heap invariant, and no entry holding the reserved key -inf. */
    ghost predicate Valid()
      reads this
    {
      HeapOk(nodes, index, roots, rank, treeDegrees, min, num) && NoReservedKey(Contents())
    }

    /** The entries stored: each tag with its key. */
    ghost function Contents(): map<T, Key>
      reads this
    {
      ContentsOf(nodes, index)
    }

    /** The entry the min pointer names: which of several least entries
        Minimum and ExtractMin report. */
    ghost function MinEntry(): Option<(T, Key)>
      reads this
    {
      EntryAt(nodes, min)
    }

    /** NewFibHeap (fibheap.go:13-30): an empty heap. */
    constructor (zero: T)
      ensures Valid() && Contents() == map[] && MinEntry() == None && this.zero == zero
    {
      nodes, roots, index, treeDegrees := [], [], map[], map[];
      min, num := None, 0;
      rank := [];
      this.zero := zero;
    }

    /** Num (fibheap.go:33-35): the number of entries. */
    method Num() returns (n: nat)
      requires Valid()
      ensures n == |Contents()|
    {
      ContentsFacts(nodes, index);
      n := num;
    }

    /** Minimum (fibheap.go:45-51): a least entry, or the zero tag and -inf
        when the heap is empty. */
    method Minimum() returns (tag: T, key: Key)
      requires Valid()
      ensures Contents() == map[] ==> tag == zero && key == NegInf
      ensures Contents() != map[] ==>
        tag in Contents() && Contents()[tag] == key && IsLeast(Contents(), key)
      ensures MinEntry() == if Contents() == map[] then None else Some((tag, key))
    {
      ContentsFacts(nodes, index);
      if num == 0 {
        return zero, NegInf;
      }
      MinIsLeast(nodes, index, roots, rank, treeDegrees, min, num);
      tag, key := nodes[min.value].tag, nodes[min.value].key;
    }

    /** GetPriority (fibheap.go:122-128): the key of `tag`, or -inf when absent. */
    method GetPriority(tag: T) returns (key: Key)
      requires Valid()
      ensures key == if tag in Contents() then Contents()[tag] else NegInf
    {
      ContentsHas(nodes, index, tag);
      if tag in index {
        return nodes[index[tag]].key;
      }
      return NegInf;
    }

    /** Writes back the struct fields an internal operation computed. */
    method Store(nodes': seq<Node<T>>, index': map<T, nat>, roots': seq<nat>, ghost rank': seq<nat>,
                 treeDegrees': map<nat, nat>, min': Option<nat>, num': nat)
      modifies this
      ensures nodes == nodes' && index == index' && roots == roots' && rank == rank'
      ensures treeDegrees == treeDegrees' && min == min' && num == num'
    {
      nodes, index, roots, rank := nodes', index', roots', rank';
      treeDegrees, min, num := treeDegrees', min', num';
    }

    /** Insert (fibheap.go:39-41, internal.go:59-83): adds an entry unless the
        key is the reserved -inf or the tag is already present. */
    method Insert(tag: T, key: Key) returns (r: Outcome)
      requires Valid()
      modifies this
      ensures Valid()
      ensures r == if key == NegInf then Fail(ReservedKey)
                   else if tag in old(Contents()) then Fail(DuplicateTag) else Pass
      ensures Contents() == if r.Pass? then old(Contents())[tag := key] else old(Contents())
      ensures r.Fail? ==> unchanged(this)
      ensures r.Pass? ==> MinEntry() == if old(MinEntry()).None? || Less(key, old(MinEntry()).value.1)
                                        then Some((tag, key)) else old(MinEntry())
    {
      ContentsHas(nodes, index, tag);
      var nodes', index', roots', min', num';
      ghost var rank';
      r, nodes', index', roots', rank', min', num' := InsertAt(nodes, index, roots, rank, treeDegrees, min, num, tag, key);
      if r.Pass? {
        NoReservedKeyUpdate(Contents(), tag, key);
        Store(nodes', index', roots', rank', treeDegrees, min', num');
      }
    }

    /** ExtractMin (fibheap.go:55-62, internal.go:85-108): removes and returns a
        least entry, or returns the zero tag and -inf when the heap is empty.
        Every key left is at least the one returned, so repeated calls return
        keys in non-decreasing order. */
    method ExtractMin() returns (tag: T, key: Key)
      requires Valid()
      modifies this
      ensures Valid()
      ensures old(Contents()) == map[] ==> tag == zero && key == NegInf && unchanged(this)
      ensures old(Contents()) != map[] ==>
        tag in old(Contents()) && old(Contents())[tag] == key && IsLeast(old(Contents()), key) &&
        Contents() == old(Contents()) - {tag}
      ensures old(Contents()) != map[] ==> old(MinEntry()) == Some((tag, key))
      ensures forall t :: t in Contents() ==> Le(key, Contents()[t])
    {
      ContentsFacts(nodes, index);
      if num == 0 {
        return zero, NegInf;
      }
      ghost var before := Contents();
      var m, nodes', index', roots', treeDegrees', min', num';
      ghost var rank';
      m, nodes', index', roots', rank', treeDegrees', min', num' := ExtractMinAt(nodes, index, roots, rank, treeDegrees, min, num);
      tag, key := nodes[m].tag, nodes[m].key;
      NoReservedKeyRemove(Contents(), tag);
      Store(nodes', index', roots', rank', treeDegrees', min', num');
      forall t | t in Contents() ensures Le(key, Contents()[t]) {
        assert before[t] == Contents()[t];
      }
    }

    /** The first loop of Union (fibheap.go:67-71): whether some tag of `other`
        is already here. */
    method SharesTag(other: FibHeap<T>) returns (b: bool)
      requires Valid() && other.Valid()
      ensures b <==> !(Contents().Keys !! other.Contents().Keys)
    {
      var pending := other.index.Keys;
      while pending != {}
        invariant pending <= other.index.Keys
        invariant forall t :: t in other.index && t !in pending ==> t !in index
        decreases |pending|
      {
        var t :| t in pending;
        if t in index {
          ContentsHas(nodes, index, t);
          ContentsHas(other.nodes, other.index, t);
          return true;
        }
        pending := pending - {t};
      }
      DisjointTags(nodes, index, other.nodes, other.index);
      return false;
    }

    /** The second loop of Union (fibheap.go:73-75): every entry of the arena
        `source` is inserted, in the (arbitrary) order a Go map range yields
        them. */
    method InsertEach(source: seq<Node<T>>, sourceIndex: map<T, nat>)
      requires Valid() && IndexOk(source, sourceIndex) && NoReservedKey(ContentsOf(source, sourceIndex))
      requires Contents().Keys !! ContentsOf(source, sourceIndex).Keys
      modifies this
      ensures Valid()
      ensures Contents() == old(Contents()) + ContentsOf(source, sourceIndex)
    {
      ghost var mine := Contents();
      ghost var theirs := ContentsOf(source, sourceIndex);
      var ns, ix, rs, mn, nm := nodes, index, roots, min, num;
      ghost var rk := rank;
      var remaining := sourceIndex.Keys;
      CopyStart(mine, source, sourceIndex);
      while remaining != {}
        invariant HeapOk(ns, ix, rs, rk, treeDegrees, mn, nm)
        invariant remaining <= sourceIndex.Keys
        invariant ContentsOf(ns, ix) == mine + Copied(theirs, remaining)
        decreases |remaining|
      {
        var t :| t in remaining;
        ContentsHas(source, sourceIndex, t);
        CopyStep(mine, theirs, remaining, t);
        ContentsHas(ns, ix, t);
        var r;
        r, ns, ix, rs, rk, mn, nm := InsertAt(ns, ix, rs, rk, treeDegrees, mn, nm, t, source[sourceIndex[t]].key);
        remaining := remaining - {t};
      }
      CopyDone(mine, theirs);
      Store(ns, ix, rs, rk, treeDegrees, mn, nm);
    }

    /** Union (fibheap.go:66-78): when no tag of `other` is already here, every
        entry of `other` is inserted; otherwise nothing changes. */
    method Union(other: FibHeap<T>) returns (r: Outcome)
      requires Valid() && other.Valid()
      modifies this
      ensures Valid()
      ensures r == if old(Contents()).Keys !! old(other.Contents()).Keys then Pass else Fail(DuplicateTag)
      ensures Contents() == if r.Pass? then old(Contents()) + old(other.Contents()) else old(Contents())
      ensures r.Fail? ==> unchanged(this)
      ensures other != this ==> other.Contents() == old(other.Contents())
    {
      var shared := SharesTag(other);
      if shared {
        return Fail(DuplicateTag);
      }
      InsertEach(other.nodes, other.index);
      r := Pass;
    }

    /** DecreaseKey (fibheap.go:82-92, internal.go:131-151): lowers the key of
        `tag`; -inf is refused, as are an absent tag and a key that is not smaller. */
    method DecreaseKey(tag: T, key: Key) returns (r: Outcome)
      requires Valid()
      modifies this
      ensures Valid()
      ensures r == if key == NegInf then Fail(ReservedKey)
                   else if tag !in old(Contents()) then Fail(TagNotFound)
                   else if Less(key, old(Contents())[tag]) then Pass else Fail(KeyNotSmaller)
      ensures Contents() == if r.Pass? then old(Contents())[tag := key] else old(Contents())
      ensures r.Fail? ==> unchanged(this)
      ensures r.Pass? ==> MinEntry() == if old(MinEntry()).Some? && Less(key, old(MinEntry()).value.1)
                                        then Some((tag, key)) else old(MinEntry())
    {
      if key == NegInf {
        return Fail(ReservedKey);
      }
      if tag !in index {
        return Fail(TagNotFound);
      }
      ContentsHas(nodes, index, tag);
      var nodes', roots', min';
      r, nodes', roots', min' := DecreaseKeyAt(nodes, index, roots, rank, treeDegrees, min, num, index[tag], key);
      if r.Pass? {
        EntryKept(nodes, index[tag], key, nodes', min');
        NoReservedKeyUpdate(Contents(), tag, key);
        Store(nodes', index, roots', rank, treeDegrees, min', num);
      }
    }

    /** IncreaseKey (fibheap.go:96-106, internal.go:153-176): raises the key of
        `tag`; -inf is refused, as are an absent tag and a key that is not larger. */
    method IncreaseKey(tag: T, key: Key) returns (r: Outcome)
      requires Valid()
      modifies this
      ensures Valid()
      ensures r == if key == NegInf then Fail(ReservedKey)
                   else if tag !in old(Contents()) then Fail(TagNotFound)
                   else if Less(old(Contents())[tag], key) then Pass else Fail(KeyNotLarger)
      ensures Contents() == if r.Pass? then old(Contents())[tag := key] else old(Contents())
      ensures r.Fail? ==> unchanged(this)
      ensures r.Pass? && (old(MinEntry()).None? || old(MinEntry()).value.0 != tag) ==>
        MinEntry() == old(MinEntry())
    {
      if key == NegInf {
        return Fail(ReservedKey);
      }
      if tag !in index {
        return Fail(TagNotFound);
      }
      ContentsHas(nodes, index, tag);
      var nodes', roots', min';
      r, nodes', roots', min' := IncreaseKeyAt(nodes, index, roots, rank, treeDegrees, min, num, index[tag], key);
      if r.Pass? {
        EntryKept(nodes, index[tag], key, nodes', min);
        NoReservedKeyUpdate(Contents(), tag, key);
        Store(nodes', index, roots', rank, treeDegrees, min', num);
      }
    }

    /** Extract (fibheap.go:144-153): removes `tag` and returns it with its key,
        or returns it with -inf when absent. */
    method Extract(tag: T) returns (data: T, key: Key)
      requires Valid()
      modifies this
      ensures Valid() && data == tag
      ensures key == if tag in old(Contents()) then old(Contents())[tag] else NegInf
      ensures Contents() == old(Contents()) - {tag}
      ensures tag !in old(Contents()) ==> unchanged(this)
    {
      ContentsHas(nodes, index, tag);
      if tag !in index {
        RemoveAbsent(Contents(), tag);
        return tag, NegInf;
      }
      data, key := nodes[index[tag]].tag, nodes[index[tag]].key;
      NoReservedKeyRemove(Contents(), tag);
      var nodes', index', roots', treeDegrees', min', num';
      ghost var rank';
      nodes', index', roots', rank', treeDegrees', min', num' := DeleteNodeAt(nodes, index, roots, rank, treeDegrees, min, num, index[tag]);
      Store(nodes', index', roots', rank', treeDegrees', min', num');
    }

    /** ExtractPriority (fibheap.go:132-140): removes `tag` and returns its key,
        or -inf when absent. */
    method ExtractPriority(tag: T) returns (key: Key)
      requires Valid()
      modifies this
      ensures Valid()
      ensures key == if tag in old(Contents()) then old(Contents())[tag] else NegInf
      ensures Contents() == old(Contents()) - {tag}
      ensures tag !in old(Contents()) ==> unchanged(this)
    {
      ContentsHas(nodes, index, tag);
      if tag !in index {
        RemoveAbsent(Contents(), tag);
        return NegInf;
      }
      key := nodes[index[tag]].key;
      NoReservedKeyRemove(Contents(), tag);
      var nodes', index', roots', treeDegrees', min', num';
      ghost var rank';
      nodes', index', roots', rank', treeDegrees', min', num' := DeleteNodeAt(nodes, index, roots, rank, treeDegrees, min, num, index[tag]);
      Store(nodes', index', roots', rank', treeDegrees', min', num');
    }

    /** Delete (fibheap.go:110-118): removes `tag`; an absent tag is an error. */
    method Delete(tag: T) returns (r: Outcome)
      requires Valid()
      modifies this
      ensures Valid()
      ensures r == if tag in old(Contents()) then Pass else Fail(TagNotFound)
      ensures Contents() == old(Contents()) - {tag}
      ensures r.Fail? ==> unchanged(this)
    {
      ContentsHas(nodes, index, tag);
      if tag !in index {
        RemoveAbsent(Contents(), tag);
        return Fail(TagNotFound);
      }
      var data, key := Extract(tag);
      r := Pass;
    }
  }
}
