/**
 * rebuildPath: follow a predecessor map back from the goal, then reverse
 * what was collected.
 */
module Path {
  import opened GraphTypes

  /**
   * The whole predecessor map is acyclic: some ranking of node IDs strictly
   * drops from every node to its recorded predecessor. The walk in
   * rebuildPath terminates on every such map; it also terminates when a
   * cycle exists only off the goal's chain, a case not covered here.
   */
  ghost predicate Ranked(predecessors: map<int, Node>, rank: int -> nat) {
    forall id :: id in predecessors ==> rank(NodeId(predecessors[id])) < rank(id)
  }

  /** The nodes the walk visits, goal first, each predecessor unwrapped. */
  ghost function Walk(predecessors: map<int, Node>, curr: Node, rank: int -> nat): seq<Node>
    requires Ranked(predecessors, rank)
    decreases rank(NodeId(curr))
  {
    if NodeId(curr) in predecessors then
      [curr] + Walk(predecessors, Unwrap(predecessors[NodeId(curr)]), rank)
    else
      [curr]
  }

  function Reverse<T>(s: seq<T>): seq<T> {
    if s == [] then [] else Reverse(s[1..]) + [s[0]]
  }

  lemma {:induction false} ReverseAt<T>(s: seq<T>, k: int)
    requires 0 <= k < |s|
    ensures |Reverse(s)| == |s|
    ensures Reverse(s)[k] == s[|s| - 1 - k]
  {
    if k < |s| - 1 {
      ReverseAt(s[1..], k);
    } else if |s| > 1 {
      ReverseAt(s[1..], 0);
    }
  }

  /** A sequence that holds `s` back to front is Reverse(s). */
  lemma ReversedPointwise<T>(s: seq<T>, r: seq<T>)
    requires |r| == |s|
    requires forall k :: 0 <= k < |s| ==> r[k] == s[|s| - 1 - k]
    ensures r == Reverse(s)
  {
    if |s| > 0 {
      ReverseAt(s, 0);
    }
    forall k | 0 <= k < |s|
      ensures r[k] == Reverse(s)[k]
    {
      ReverseAt(s, k);
    }
  }

  /** Each node of `s` after the first is the unwrapped predecessor of the
      node before it. */
  ghost predicate Linked(predecessors: map<int, Node>, s: seq<Node>)
    decreases |s|
  {
    |s| <= 1 ||
    (&& NodeId(s[0]) in predecessors
     && Unwrap(predecessors[NodeId(s[0])]) == s[1]
     && Linked(predecessors, s[1..]))
  }

  lemma {:induction false} LinkedExtend(predecessors: map<int, Node>, s: seq<Node>, x: Node)
    requires |s| >= 1 && Linked(predecessors, s)
    requires NodeId(s[|s| - 1]) in predecessors
    requires x == Unwrap(predecessors[NodeId(s[|s| - 1])])
    ensures Linked(predecessors, s + [x])
    decreases |s|
  {
    if |s| > 1 {
      LinkedExtend(predecessors, s[1..], x);
      assert (s + [x])[1..] == s[1..] + [x];
    }
  }

  /** A linked sequence that stops at a node without a predecessor is the
      walk from its first node. */
  lemma {:induction false} LinkedIsWalk(predecessors: map<int, Node>, s: seq<Node>, rank: int -> nat)
    requires Ranked(predecessors, rank)
    requires |s| >= 1 && Linked(predecessors, s) && NodeId(s[|s| - 1]) !in predecessors
    ensures s == Walk(predecessors, s[0], rank)
    decreases |s|
  {
    if |s| > 1 {
      LinkedIsWalk(predecessors, s[1..], rank);
      assert s == [s[0]] + s[1..];
    }
  }

  /** The backward walk starts at the node it is given and ends at a node
      with no predecessor. */
  lemma {:induction false} WalkShape(predecessors: map<int, Node>, curr: Node, rank: int -> nat)
    requires Ranked(predecessors, rank)
    ensures var w := Walk(predecessors, curr, rank);
      && |w| >= 1
      && w[0] == curr
      && NodeId(w[|w| - 1]) !in predecessors
    decreases rank(NodeId(curr))
  {
    if NodeId(curr) in predecessors {
      var next := Unwrap(predecessors[NodeId(curr)]);
      WalkShape(predecessors, next, rank);
      var rest := Walk(predecessors, next, rank);
      assert Walk(predecessors, curr, rank) == [curr] + rest;
    }
  }

  /** Each step of the backward walk goes from a node to its unwrapped
      predecessor. */
  lemma {:induction false} WalkLinked(predecessors: map<int, Node>, curr: Node, rank: int -> nat)
    requires Ranked(predecessors, rank)
    ensures Linked(predecessors, Walk(predecessors, curr, rank))
    decreases rank(NodeId(curr))
  {
    if NodeId(curr) in predecessors {
      var next := Unwrap(predecessors[NodeId(curr)]);
      WalkLinked(predecessors, next, rank);
      WalkShape(predecessors, next, rank);
      var rest := Walk(predecessors, next, rank);
      var w := [curr] + rest;
      assert Walk(predecessors, curr, rank) == w;
      assert w[1..] == rest;
    }
  }

  /** `next` follows `prev` on a path: `prev` is the recorded predecessor of
      `next`, once unwrapped. */
  ghost predicate Stepped(predecessors: map<int, Node>, prev: Node, next: Node) {
    NodeId(next) in predecessors && Unwrap(predecessors[NodeId(next)]) == prev
  }

  /** In a linked sequence every adjacent pair is a predecessor step. */
  lemma {:induction false} LinkedSteps(predecessors: map<int, Node>, s: seq<Node>, k: int)
    requires Linked(predecessors, s) && 0 <= k < |s| - 1
    ensures NodeId(s[k]) in predecessors && Unwrap(predecessors[NodeId(s[k])]) == s[k + 1]
    decreases k
  {
    if k > 0 {
      LinkedSteps(predecessors, s[1..], k - 1);
    }
  }

  /** The path rebuildPath promises: the backward walk from the unwrapped
      goal, reversed. */
  ghost function ForwardPath(predecessors: map<int, Node>, goal: Node, rank: int -> nat): seq<Node>
    requires Ranked(predecessors, rank)
  {
    Reverse(Walk(predecessors, Unwrap(goal), rank))
  }

  /**
   * The forward path ends at the unwrapped goal and starts at a node with no
   * predecessor; a goal without a predecessor gives the one-node path.
   */
  lemma ForwardPathEnds(predecessors: map<int, Node>, goal: Node, rank: int -> nat)
    requires Ranked(predecessors, rank)
    ensures var p := ForwardPath(predecessors, goal, rank);
      && |p| >= 1
      && p[|p| - 1] == Unwrap(goal)
      && NodeId(p[0]) !in predecessors
    ensures NodeId(goal) !in predecessors ==> ForwardPath(predecessors, goal, rank) == [Unwrap(goal)]
  {
    var w := Walk(predecessors, Unwrap(goal), rank);
    WalkShape(predecessors, Unwrap(goal), rank);
    ReverseAt(w, 0);
    ReverseAt(w, |w| - 1);
  }

  /** Along the forward path every node is the recorded (unwrapped)
      predecessor of the node after it. */
  lemma ForwardPathSteps(predecessors: map<int, Node>, goal: Node, rank: int -> nat)
    requires Ranked(predecessors, rank)
    ensures var p := ForwardPath(predecessors, goal, rank);
      forall k, l :: 0 <= k && l == k + 1 && l < |p| ==> Stepped(predecessors, p[k], p[l])
  {
    var w := Walk(predecessors, Unwrap(goal), rank);
    var p := ForwardPath(predecessors, goal, rank);
    WalkShape(predecessors, Unwrap(goal), rank);
    WalkLinked(predecessors, Unwrap(goal), rank);
    var n := |w|;
    ReverseAt(w, 0);
    forall k, l | 0 <= k && l == k + 1 && l < n
      ensures Stepped(predecessors, p[k], p[l])
    {
      ReverseAt(w, k);
      ReverseAt(w, l);
      LinkedSteps(predecessors, w, n - 1 - l);
    }
  }

  /** rebuildPath, returning a fresh sequence; `rank` witnesses that the
      predecessor map has no cycle. */
  method RebuildPath(predecessors: map<int, Node>, goal: Node, ghost rank: int -> nat)
    returns (path: seq<Node>)
    requires Ranked(predecessors, rank)
    ensures path == ForwardPath(predecessors, goal, rank)
  {
    var start := Unwrap(goal);
    path := [start];
    var curr := start;
    // the backward walk
    while NodeId(curr) in predecessors
      invariant |path| >= 1 && path[0] == start && path[|path| - 1] == curr
      invariant Linked(predecessors, path)
      decreases rank(NodeId(curr))
    {
      var prev := Unwrap(predecessors[NodeId(curr)]);
      LinkedExtend(predecessors, path, prev);
      path := path + [prev];
      curr := prev;
    }
    ghost var walked := path;
    // reverse it in place
    var i, j := 0, |path| - 1;
    while i < j
      invariant 0 <= i && j == |walked| - 1 - i && i <= j + 1
      invariant |path| == |walked|
      invariant forall k {:trigger path[k]} :: 0 <= k < i ==> path[k] == walked[|walked| - 1 - k]
      invariant forall k {:trigger path[k]} :: j < k < |walked| ==> path[k] == walked[|walked| - 1 - k]
      invariant forall k {:trigger path[k]} :: i <= k <= j ==> path[k] == walked[k]
    {
      path := path[i := path[j]][j := path[i]];
      i, j := i + 1, j - 1;
    }
    ReversedPointwise(walked, path);
    LinkedIsWalk(predecessors, walked, rank);
  }

  /** A two-step map, one predecessor stored wrapped: the path from the goal
      is the chain of IDs 1, 2, 3 with the wrapper stripped. */
  lemma ForwardPathExample()
    ensures var predecessors := map[3 := Basic(2), 2 := Wrapped(InternalNode(Basic(1), Inf, Inf))];
      ForwardPath(predecessors, Basic(3), IdRank) == [Basic(1), Basic(2), Basic(3)]
  {
    var predecessors := map[3 := Basic(2), 2 := Wrapped(InternalNode(Basic(1), Inf, Inf))];
    var w := Walk(predecessors, Basic(3), IdRank);
    assert Walk(predecessors, Basic(1), IdRank) == [Basic(1)];
    assert Walk(predecessors, Basic(2), IdRank) == [Basic(2), Basic(1)];
    assert w == [Basic(3), Basic(2), Basic(1)];
    ReversedPointwise(w, [Basic(1), Basic(2), Basic(3)]);
  }

  /** Ranks a node by its ID; enough for maps whose predecessors have
      smaller non-negative IDs. */
  function IdRank(id: int): nat {
    if id < 0 then 0 else id
  }
}
