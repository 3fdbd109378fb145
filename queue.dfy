/**
 * aStarPriorityQueue: a binary min-heap on f-score (the `nodes` slice) kept
 * in lockstep with a map from node ID to heap slot (`indexList`), so that a
 * node's scores can be found and lowered without a linear scan. The sift
 * routines of Go's container/heap, which drive the queue through Less and
 * Swap, are modelled beside it as Up, Down, HeapFix, Insert and ExtractMin.
 */
module AStarQueue {
  import opened GraphTypes

  /** The slot of a heap slot's parent (only asked of slots above 0). */
  function Parent(k: int): int {
    (k - 1) / 2
  }

  /** The order the queue's Less compares entries by. */
  predicate FscoreBefore(a: InternalNode, b: InternalNode) {
    CostLess(a.fscore, b.fscore)
  }

  /** Heap order between a parent and a child: the child's f-score is not
      below the parent's. */
  predicate InHeapOrder(a: InternalNode, b: InternalNode) {
    !CostLess(b.fscore, a.fscore)
  }

  lemma HeapOrderTransitive(a: InternalNode, b: InternalNode, c: InternalNode)
    requires InHeapOrder(a, b) && InHeapOrder(b, c)
    ensures InHeapOrder(a, c)
  {
    CostLessIsStrictTotal();
  }

  /** The queue's Less is a strict weak order; entries with equal f-scores
      are unordered, so nothing is promised about their relative order. */
  lemma QueueOrderIsStrictWeak()
    ensures StrictWeakOrder(FscoreBefore)
  {
    CostLessIsStrictTotal();
  }

  // ---------------------------------------------------------------------
  // The index invariant

  /**
   * `index` maps exactly the IDs held in `s`, each to the slot holding it.
   * (So no ID is held twice.)
   */
  ghost predicate Indexed(s: seq<InternalNode>, index: map<int, int>) {
    && (forall k :: 0 <= k < |s| ==> EntryId(s[k]) in index && index[EntryId(s[k])] == k)
    && (forall id :: id in index ==> 0 <= index[id] < |s| && EntryId(s[index[id]]) == id)
  }

  /** What the queue holds: each present ID with its current entry. */
  ghost function Entries(s: seq<InternalNode>, index: map<int, int>): map<int, InternalNode>
    requires Indexed(s, index)
  {
    map id | id in index :: s[index[id]]
  }

  function Swapped<T>(s: seq<T>, i: int, j: int): seq<T>
    requires 0 <= i < |s| && 0 <= j < |s|
  {
    s[i := s[j]][j := s[i]]
  }

  /** Swap keeps the index invariant and what the queue holds. */
  lemma SwapKeepsIndex(s: seq<InternalNode>, index: map<int, int>, i: int, j: int)
    requires Indexed(s, index) && 0 <= i < |s| && 0 <= j < |s|
    ensures var index' := index[EntryId(s[i]) := j][EntryId(s[j]) := i];
      && Indexed(Swapped(s, i, j), index')
      && Entries(Swapped(s, i, j), index') == Entries(s, index)
  {
    var t, index' := Swapped(s, i, j), index[EntryId(s[i]) := j][EntryId(s[j]) := i];
    forall k | 0 <= k < |t|
      ensures EntryId(t[k]) in index' && index'[EntryId(t[k])] == k
    {
      if k != i && k != j {
        assert EntryId(s[k]) != EntryId(s[i]) && EntryId(s[k]) != EntryId(s[j]);
      }
    }
    assert index'.Keys == index.Keys;
    forall id | id in index'
      ensures 0 <= index'[id] < |t| && EntryId(t[index'[id]]) == id
      ensures t[index'[id]] == s[index[id]]
    {
    }
  }

  /** Appending an entry whose ID is absent, and indexing it at the end,
      keeps the index invariant and adds exactly that entry. */
  lemma PushKeepsIndex(s: seq<InternalNode>, index: map<int, int>, x: InternalNode)
    requires Indexed(s, index) && EntryId(x) !in index
    ensures Indexed(s + [x], index[EntryId(x) := |s|])
    ensures Entries(s + [x], index[EntryId(x) := |s|]) == Entries(s, index)[EntryId(x) := x]
  {
    var t, index' := s + [x], index[EntryId(x) := |s|];
    forall k | 0 <= k < |t|
      ensures EntryId(t[k]) in index' && index'[EntryId(t[k])] == k
    {
      if k < |s| {
        assert t[k] == s[k];
      }
    }
    forall id | id in index'
      ensures 0 <= index'[id] < |t| && EntryId(t[index'[id]]) == id
      ensures t[index'[id]] == Entries(s, index)[EntryId(x) := x][id]
    {
      if id != EntryId(x) {
        assert t[index[id]] == s[index[id]];
      }
    }
  }

  /** Dropping the last slot and its ID keeps the index invariant and
      removes exactly that entry. */
  lemma PopKeepsIndex(s: seq<InternalNode>, index: map<int, int>)
    requires Indexed(s, index) && |s| > 0
    ensures Indexed(s[..|s| - 1], index - {EntryId(s[|s| - 1])})
    ensures Entries(s[..|s| - 1], index - {EntryId(s[|s| - 1])})
      == Entries(s, index) - {EntryId(s[|s| - 1])}
  {
    var t, index' := s[..|s| - 1], index - {EntryId(s[|s| - 1])};
    forall id | id in index'
      ensures 0 <= index'[id] < |t| && EntryId(t[index'[id]]) == id
    {
      assert index[id] != |s| - 1;
    }
  }

  /** Pushing an ID that is already queued breaks the index invariant: the
      slot that held it is no longer the one the index names. */
  lemma DuplicatePushBreaksIndex(s: seq<InternalNode>, index: map<int, int>, x: InternalNode)
    requires Indexed(s, index) && EntryId(x) in index
    ensures !Indexed(s + [x], index[EntryId(x) := |s|])
  {
    var k := index[EntryId(x)];
    assert (s + [x])[k] == s[k];
  }

  /** Changing the scores of one slot keeps the index invariant and changes
      only that entry. */
  lemma RescoreKeepsIndex(s: seq<InternalNode>, index: map<int, int>, id: int, g: Cost, f: Cost)
    requires Indexed(s, index) && id in index
    ensures var t := s[index[id] := s[index[id]].(gscore := g, fscore := f)];
      && Indexed(t, index)
      && Entries(t, index) == Entries(s, index)[id := Entries(s, index)[id].(gscore := g, fscore := f)]
  {
    var i := index[id];
    var t := s[i := s[i].(gscore := g, fscore := f)];
    forall k | 0 <= k < |t|
      ensures EntryId(t[k]) in index && index[EntryId(t[k])] == k
    {
    }
    forall other | other in index && other != id
      ensures t[index[other]] == s[index[other]]
    {
    }
  }

  /** The queue holds one entry per heap slot. */
  lemma {:induction false} IndexSize(s: seq<InternalNode>, index: map<int, int>)
    requires Indexed(s, index)
    ensures |Entries(s, index)| == |s|
    decreases |s|
  {
    assert Entries(s, index).Keys == index.Keys;
    if |s| == 0 {
      assert forall id :: id !in index;
      assert index.Keys == {};
    } else {
      var last := EntryId(s[|s| - 1]);
      PopKeepsIndex(s, index);
      IndexSize(s[..|s| - 1], index - {last});
      assert Entries(s[..|s| - 1], index - {last}).Keys == index.Keys - {last};
    }
  }

  // ---------------------------------------------------------------------
  // Heap order on f-score over the first n slots

  /**
   * Every parent/child pair among the first n slots is in heap order,
   * except pairs whose parent is `skipParent` or whose child is `skipChild`
   * (pass -1 to skip nothing).
   */
  ghost predicate EdgesHold(s: seq<InternalNode>, n: int, skipParent: int, skipChild: int)
    requires n <= |s|
  {
    forall p, c {:trigger InHeapOrder(s[p], s[c])} ::
      0 <= p < c < n && p == Parent(c) && p != skipParent && c != skipChild ==> InHeapOrder(s[p], s[c])
  }

  /** The first n slots form a heap: the minimum f-score is at slot 0. */
  ghost predicate Heap(s: seq<InternalNode>, n: int)
    requires n <= |s|
  {
    EdgesHold(s, n, -1, -1)
  }

  /** The parent of slot i is in heap order with i's children (so i itself
      may be moved anywhere between them). */
  ghost predicate Bridged(s: seq<InternalNode>, n: int, i: int)
    requires n <= |s| && 0 <= i < |s|
  {
    i > 0 ==> forall c {:trigger InHeapOrder(s[Parent(i)], s[c])} ::
      0 <= c < n && Parent(c) == i ==> InHeapOrder(s[Parent(i)], s[c])
  }

  /** In a heap, slot 0 holds an entry whose f-score is not above any other. */
  lemma {:induction false} RootIsMin(s: seq<InternalNode>, n: int, k: int)
    requires n <= |s| && Heap(s, n) && 0 <= k < n
    ensures InHeapOrder(s[0], s[k])
    decreases k
  {
    if k > 0 {
      var p := Parent(k);
      RootIsMin(s, n, p);
      assert InHeapOrder(s[p], s[k]);
      HeapOrderTransitive(s[0], s[p], s[k]);
    }
  }

  /** One step of sift-up: swapping an out-of-order slot with its parent moves
      the hole up to the parent. */
  lemma UpStep(s: seq<InternalNode>, n: int, j: int)
    requires n <= |s| && 0 < j < n
    requires EdgesHold(s, n, -1, j) && Bridged(s, n, j)
    requires CostLess(s[j].fscore, s[Parent(j)].fscore)
    ensures EdgesHold(Swapped(s, Parent(j), j), n, -1, Parent(j))
    ensures Bridged(Swapped(s, Parent(j), j), n, Parent(j))
  {
    var i := Parent(j);
    var t := Swapped(s, i, j);
    CostLessIsStrictTotal();
    forall p, c | 0 <= p < c < n && p == Parent(c) && c != i
      ensures InHeapOrder(t[p], t[c])
    {
      if p == i && c == j {
      } else if p == i {
        // c is j's sibling
        assert InHeapOrder(s[i], s[c]);
      } else if p == j {
        assert InHeapOrder(s[i], s[c]);
      } else if c == j {
      } else {
        assert t[p] == s[p] && t[c] == s[c];
      }
    }
    if i > 0 {
      forall c | 0 <= c < n && Parent(c) == i
        ensures InHeapOrder(t[Parent(i)], t[c])
      {
        assert t[Parent(i)] == s[Parent(i)];
        assert InHeapOrder(s[Parent(i)], s[i]);
        if c == j {
        } else {
          assert InHeapOrder(s[i], s[c]);
          HeapOrderTransitive(s[Parent(i)], s[i], s[c]);
        }
      }
    }
  }

  /** One step of sift-down: swapping a slot with its smaller child, when
      that child is below it, moves the hole down to the child. */
  lemma DownStep(s: seq<InternalNode>, n: int, i: int, skip: int, j: int)
    requires n <= |s| && 0 <= i && (j == 2 * i + 1 || j == 2 * i + 2) && j < n
    requires skip == i || skip == -1
    requires EdgesHold(s, n, i, skip) && Bridged(s, n, i)
    requires 2 * i + 1 < n ==> InHeapOrder(s[j], s[2 * i + 1])
    requires 2 * i + 2 < n ==> InHeapOrder(s[j], s[2 * i + 2])
    requires CostLess(s[j].fscore, s[i].fscore)
    ensures EdgesHold(Swapped(s, i, j), n, j, -1)
    ensures Bridged(Swapped(s, i, j), n, j)
  {
    var t := Swapped(s, i, j);
    CostLessIsStrictTotal();
    forall p, c | 0 <= p < c < n && p == Parent(c) && p != j
      ensures InHeapOrder(t[p], t[c])
    {
      if p == i && c == j {
      } else if p == i {
        // c is j's sibling
        ChildSlots(c);
        assert InHeapOrder(s[j], s[c]);
      } else if c == i {
        // the bridge over i
        assert InHeapOrder(s[p], s[j]);
      } else {
        assert t[p] == s[p] && t[c] == s[c];
      }
    }
    forall c | 0 <= c < n && Parent(c) == j
      ensures InHeapOrder(t[i], t[c])
    {
      assert InHeapOrder(s[j], s[c]);
    }
  }

  /** Sift-down stops when slot i is not above any of its children. */
  lemma DownStop(s: seq<InternalNode>, n: int, i: int, skip: int)
    requires n <= |s| && 0 <= i < |s|
    requires EdgesHold(s, n, i, skip)
    requires 2 * i + 1 < n ==> InHeapOrder(s[i], s[2 * i + 1])
    requires 2 * i + 2 < n ==> InHeapOrder(s[i], s[2 * i + 2])
    ensures EdgesHold(s, n, -1, skip)
  {
    forall p, c | 0 <= p < c < n && p == Parent(c) && p == i
      ensures InHeapOrder(s[p], s[c])
    {
      ChildSlots(c);
    }
  }

  /** A slot above 0 is one of its parent's two children. */
  lemma ChildSlots(c: int)
    requires c > 0
    ensures c == 2 * Parent(c) + 1 || c == 2 * Parent(c) + 2
  {
  }

  /** A new last entry leaves a heap broken at most above that entry. */
  lemma AppendHole(s: seq<InternalNode>, x: InternalNode)
    requires Heap(s, |s|)
    ensures EdgesHold(s + [x], |s| + 1, -1, |s|)
    ensures Bridged(s + [x], |s| + 1, |s|)
  {
    var t := s + [x];
    forall p, c | 0 <= p < c < |s| + 1 && p == Parent(c) && c != |s|
      ensures InHeapOrder(t[p], t[c])
    {
      assert t[p] == s[p] && t[c] == s[c];
    }
  }

  /** Moving the last entry to the root leaves the first |s| - 1 slots a
      heap except below the root. */
  lemma RootHole(s: seq<InternalNode>)
    requires |s| > 0 && Heap(s, |s|)
    ensures EdgesHold(Swapped(s, 0, |s| - 1), |s| - 1, 0, 0)
  {
    var t, m := Swapped(s, 0, |s| - 1), |s| - 1;
    forall p, c | 0 <= p < c < m && p == Parent(c) && p != 0
      ensures InHeapOrder(t[p], t[c])
    {
      assert t[p] == s[p] && t[c] == s[c];
    }
  }

  /** Giving one slot of a heap new scores breaks heap order only at that
      slot, and its parent stays in order with its children. */
  lemma RescoreHole(s: seq<InternalNode>, i: int, e: InternalNode)
    requires Heap(s, |s|) && 0 <= i < |s|
    ensures EdgesHold(s[i := e], |s|, i, i)
    ensures Bridged(s[i := e], |s|, i)
  {
    var t := s[i := e];
    forall p, c | 0 <= p < c < |s| && p == Parent(c) && p != i && c != i
      ensures InHeapOrder(t[p], t[c])
    {
      assert t[p] == s[p] && t[c] == s[c];
    }
    if i > 0 {
      forall c | 0 <= c < |s| && Parent(c) == i
        ensures InHeapOrder(t[Parent(i)], t[c])
      {
        assert InHeapOrder(s[Parent(i)], s[i]) && InHeapOrder(s[i], s[c]);
        HeapOrderTransitive(s[Parent(i)], s[i], s[c]);
      }
    }
  }

  lemma HeapPrefix(s: seq<InternalNode>, n: int)
    requires 0 <= n <= |s| && Heap(s, n)
    ensures Heap(s[..n], n)
  {
    var t := s[..n];
    forall p, c | 0 <= p < c < n && p == Parent(c)
      ensures InHeapOrder(t[p], t[c])
    {
      assert t[p] == s[p] && t[c] == s[c];
    }
  }

  // ---------------------------------------------------------------------
  // The queue

  class PriorityQueue {
    var indexList: map<int, int>
    var nodes: seq<InternalNode>

    /** The index invariant: indexList[nodes[k].ID()] == k for every slot,
        and indexList holds no other ID. */
    ghost predicate Valid()
      reads this
    {
      Indexed(nodes, indexList)
    }

    /** Heap order on f-score, as container/heap maintains it. */
    ghost predicate Ordered()
      reads this
    {
      Heap(nodes, |nodes|)
    }

    /** The open set: each queued ID with its entry. */
    ghost function Contents(): map<int, InternalNode>
      reads this
      requires Valid()
    {
      Entries(nodes, indexList)
    }

    /** An empty queue, as a caller builds it. */
    constructor ()
      ensures Valid() && Ordered()
      ensures nodes == [] && indexList == map[]
    {
      indexList := map[];
      nodes := [];
    }

    /** Less: compares f-scores; no slot is below itself and two slots are
        never each below the other. */
    function Less(i: int, j: int): (r: bool)
      reads this
      requires 0 <= i < |nodes| && 0 <= j < |nodes|
      ensures i == j ==> !r
      ensures r ==> !CostLess(nodes[j].fscore, nodes[i].fscore)
    {
      FscoreBefore(nodes[i], nodes[j])
    }

    /** Len: the number of queued entries. */
    function Len(): (r: nat)
      reads this
      ensures Valid() ==> r == |Contents()|
    {
      IndexSizeWhenValid(nodes, indexList);
      |nodes|
    }

    /** Swap: exchanges two slots and repoints both IDs at their new slots. */
    method Swap(i: int, j: int)
      requires 0 <= i < |nodes| && 0 <= j < |nodes|
      modifies this
      ensures nodes == Swapped(old(nodes), i, j)
      ensures indexList == old(indexList)[EntryId(old(nodes[i])) := j][EntryId(old(nodes[j])) := i]
      ensures old(Valid()) ==> Valid() && Contents() == old(Contents())
    {
      if Valid() {
        SwapKeepsIndex(nodes, indexList, i, j);
      }
      indexList := indexList[EntryId(nodes[i]) := j];
      indexList := indexList[EntryId(nodes[j]) := i];
      nodes := nodes[i := nodes[j]][j := nodes[i]];
    }

    /** Push: appends an entry and indexes it at the last slot. */
    method Push(x: InternalNode)
      modifies this
      ensures nodes == old(nodes) + [x]
      ensures indexList == old(indexList)[EntryId(x) := |nodes| - 1]
      ensures old(Valid()) && EntryId(x) !in old(indexList) ==>
        Valid() && Contents() == old(Contents())[EntryId(x) := x]
    {
      if Valid() && EntryId(x) !in indexList {
        PushKeepsIndex(nodes, indexList, x);
      }
      nodes := nodes + [x];
      indexList := indexList[EntryId(x) := |nodes| - 1];
    }

    /** Pop: removes and returns the last entry, and forgets its ID. */
    method Pop() returns (x: InternalNode)
      requires |nodes| > 0
      modifies this
      ensures x == old(nodes[|nodes| - 1])
      ensures nodes == old(nodes[..|nodes| - 1])
      ensures indexList == old(indexList) - {EntryId(x)}
      ensures old(Valid()) ==> Valid() && Contents() == old(Contents()) - {EntryId(x)}
    {
      if Valid() {
        PopKeepsIndex(nodes, indexList);
      }
      x := nodes[|nodes| - 1];
      nodes := nodes[..|nodes| - 1];
      indexList := indexList - {EntryId(x)};
    }

    /** container/heap's up: sift slot j0 towards the root. */
    method Up(j0: int)
      requires Valid() && 0 <= j0 < |nodes|
      requires EdgesHold(nodes, |nodes|, -1, j0) && Bridged(nodes, |nodes|, j0)
      modifies this
      ensures Valid() && Ordered()
      ensures Contents() == old(Contents())
    {
      var j := j0;
      while j > 0
        invariant 0 <= j < |nodes| && |nodes| == old(|nodes|)
        invariant Valid() && Contents() == old(Contents())
        invariant EdgesHold(nodes, |nodes|, -1, j) && Bridged(nodes, |nodes|, j)
      {
        var i := Parent(j);
        if !Less(j, i) {
          break;
        }
        UpStep(nodes, |nodes|, j);
        Swap(i, j);
        j := i;
      }
    }

    /** container/heap's down: sift slot i0 towards the leaves of the first
        n slots; reports whether it moved. */
    method Down(i0: int, n: int) returns (moved: bool)
      requires Valid() && 0 <= i0 < |nodes| && 0 <= n <= |nodes|
      requires EdgesHold(nodes, n, i0, i0) && Bridged(nodes, n, i0)
      modifies this
      ensures Valid() && Contents() == old(Contents())
      ensures |nodes| == old(|nodes|)
      ensures forall k :: n <= k < |nodes| ==> nodes[k] == old(nodes[k])
      ensures moved ==> Heap(nodes, n)
      ensures !moved ==> EdgesHold(nodes, n, -1, i0)
      ensures !moved ==> nodes == old(nodes) && indexList == old(indexList)
    {
      var i := i0;
      while true
        invariant i0 <= i < |nodes| && (i == i0 || i < n)
        invariant |nodes| == old(|nodes|)
        invariant Valid() && Contents() == old(Contents())
        invariant forall k :: n <= k < |nodes| ==> nodes[k] == old(nodes[k])
        invariant EdgesHold(nodes, n, i, if i == i0 then i0 else -1) && Bridged(nodes, n, i)
        invariant i == i0 ==> nodes == old(nodes) && indexList == old(indexList)
        decreases |nodes| - i
      {
        var skip := if i == i0 then i0 else -1;
        var j1 := 2 * i + 1;
        if j1 >= n {
          DownStop(nodes, n, i, skip);
          break;
        }
        var j := j1;
        if j1 + 1 < n && Less(j1 + 1, j1) {
          j := j1 + 1;
        }
        if !Less(j, i) {
          DownStop(nodes, n, i, skip);
          break;
        }
        DownStep(nodes, n, i, skip, j);
        Swap(i, j);
        i := j;
      }
      moved := i > i0;
    }

    /** container/heap's Fix: restore heap order after slot i's entry has
        changed, by sifting it down or, if it does not move, up. */
    method HeapFix(i: int)
      requires Valid() && 0 <= i < |nodes|
      requires EdgesHold(nodes, |nodes|, i, i) && Bridged(nodes, |nodes|, i)
      modifies this
      ensures Valid() && Ordered()
      ensures Contents() == old(Contents())
    {
      var moved := Down(i, |nodes|);
      if !moved {
        Up(i);
      }
    }

    /** Fix: give a queued node new scores and restore heap order; an ID not
        in the queue is ignored. */
    method Fix(id: int, newGScore: Cost, newFScore: Cost)
      requires Valid() && Ordered()
      modifies this
      ensures Valid() && Ordered()
      ensures id in old(Contents()) ==>
        Contents() == old(Contents())[id := old(Contents())[id].(gscore := newGScore, fscore := newFScore)]
      ensures id !in old(Contents()) ==> nodes == old(nodes) && indexList == old(indexList)
    {
      if id in indexList {
        var i := indexList[id];
        var rescored := nodes[i].(gscore := newGScore, fscore := newFScore);
        RescoreKeepsIndex(nodes, indexList, id, newGScore, newFScore);
        RescoreHole(nodes, i, rescored);
        nodes := nodes[i := rescored];
        HeapFix(i);
      }
    }

    /** Find: the entry queued under `id`, if any. */
    function Find(id: int): (r: Option<InternalNode>)
      reads this
      requires Valid()
      ensures r.Some? <==> Exists(id)
      ensures r.Some? ==> EntryId(r.value) == id && r.value in nodes
      ensures r.None? ==> forall k :: 0 <= k < |nodes| ==> EntryId(nodes[k]) != id
      ensures r.Some? <==> id in Contents()
      ensures r.Some? ==> r.value == Contents()[id]
    {
      if id in indexList then Some(nodes[indexList[id]]) else None
    }

    /** Exists: whether some heap slot holds `id`. */
    function Exists(id: int): (r: bool)
      reads this
      ensures Valid() ==> (r <==> exists k :: 0 <= k < |nodes| && EntryId(nodes[k]) == id)
      ensures Valid() ==> (r <==> id in Contents())
    {
      id in indexList
    }

    /** heap.Push: queue an entry whose ID is not yet queued. */
    method Insert(x: InternalNode)
      requires Valid() && Ordered() && EntryId(x) !in Contents()
      modifies this
      ensures Valid() && Ordered()
      ensures Contents() == old(Contents())[EntryId(x) := x]
    {
      AppendHole(nodes, x);
      Push(x);
      Up(|nodes| - 1);
    }

    /** heap.Pop: remove and return an entry of least f-score. */
    method ExtractMin() returns (x: InternalNode)
      requires Valid() && Ordered() && |nodes| > 0
      modifies this
      ensures Valid() && Ordered()
      ensures EntryId(x) in old(Contents()) && old(Contents())[EntryId(x)] == x
      ensures forall id :: id in old(Contents()) ==> !CostLess(old(Contents())[id].fscore, x.fscore)
      ensures Contents() == old(Contents()) - {EntryId(x)}
    {
      ghost var s, index := nodes, indexList;
      forall id | id in index
        ensures InHeapOrder(s[0], s[index[id]])
      {
        RootIsMin(s, |s|, index[id]);
      }
      var n := |nodes| - 1;
      RootHole(nodes);
      Swap(0, n);
      var _ := Down(0, n);
      HeapPrefix(nodes, n);
      x := Pop();
    }
  }

  /** Len's connection to the open set, in the form a function body can use. */
  lemma IndexSizeWhenValid(s: seq<InternalNode>, index: map<int, int>)
    ensures Indexed(s, index) ==> |Entries(s, index)| == |s|
  {
    if Indexed(s, index) {
      IndexSize(s, index);
    }
  }
}
