/**
 * NodeExtensions.DepthSearch and NodeExtensions.BreadthSearch (lab4/Program.cs): a
 * worklist walk from a start node over IncidentNodes, with a visited set, that stops
 * as soon as a node whose id is the target is taken from the worklist. Both return the
 * nodes in the order they are emitted; they differ only in taking the worklist's newest
 * entry (a stack) or its oldest (a queue).
 */
module Traversal {
  import opened GraphSpec
  import opened GraphModel

  /** Stack<Node> or Queue<Node>; both add at the back. */
  datatype Discipline = Stack | Queue

  /** The entry Pop or Dequeue returns: the newest entry of a stack, the oldest of a queue. */
  function Next(d: Discipline, work: seq<nat>): (x: nat)
    requires |work| > 0
    ensures x in work
  {
    match d
    case Stack => work[|work| - 1]
    case Queue => work[0]
  }

  /** The worklist after Pop or Dequeue. */
  function Remaining(d: Discipline, work: seq<nat>): (r: seq<nat>)
    requires |work| > 0
    ensures |r| == |work| - 1
    ensures forall k :: 0 <= k < |r| ==> r[k] in work
    ensures forall x :: x in work ==> x in r || x == Next(d, work)
    ensures multiset(r) + multiset{Next(d, work)} == multiset(work)
  {
    match d
    case Stack =>
      assert work == work[..|work| - 1] + [work[|work| - 1]];
      work[..|work| - 1]
    case Queue =>
      assert work == [work[0]] + work[1..];
      work[1..]
  }

  /** The number of ids below k not yet visited: the measure that makes the walk end. */
  function Unvisited(visited: set<nat>, k: nat): (c: nat)
    ensures c <= k
  {
    if k == 0 then 0 else Unvisited(visited, k - 1) + (if k - 1 in visited then 0 else 1)
  }

  lemma {:induction false} UnvisitedShrinks(visited: set<nat>, k: nat, x: nat)
    requires x < k && x !in visited
    ensures Unvisited(visited + {x}, k) + 1 == Unvisited(visited, k)
  {
    if k - 1 != x {
      UnvisitedShrinks(visited, k - 1, x);
    } else {
      UnvisitedUnchanged(visited, k - 1, x);
    }
  }

  lemma {:induction false} UnvisitedUnchanged(visited: set<nat>, k: nat, x: nat)
    requires x >= k
    ensures Unvisited(visited + {x}, k) == Unvisited(visited, k)
  {
    if k > 0 {
      UnvisitedUnchanged(visited, k - 1, x);
    }
  }

  /**
   * What the search emits from a worklist and a visited set: take the next entry; if its
   * id is the target, emit it and stop; if it is visited, skip it; otherwise mark it
   * visited, emit it and add its IncidentNodes, in order, to the worklist.
   */
  function Search(s: Structure, d: Discipline, target: int, work: seq<nat>, visited: set<nat>): (r: seq<nat>)
    requires WellFormed(s) && IdsBelow(work, |s.incident|)
    ensures forall k :: 0 <= k < |r| ==> r[k] < |s.incident|
    decreases Unvisited(visited, |s.incident|), |work|
  {
    if |work| == 0 then []
    else
      var node := Next(d, work);
      var rest := Remaining(d, work);
      if node == target then [node]
      else if node in visited then Search(s, d, target, rest, visited)
      else
        UnvisitedShrinks(visited, |s.incident|, node);
        [node] + Search(s, d, target, rest + IncidentNodes(s, node), visited + {node})
  }

  /** One step of the walk. */
  lemma SearchStep(s: Structure, d: Discipline, target: int, work: seq<nat>, visited: set<nat>)
    requires WellFormed(s) && IdsBelow(work, |s.incident|) && |work| > 0
    ensures var node, rest := Next(d, work), Remaining(d, work);
      && node < |s.incident| && IdsBelow(rest, |s.incident|)
      && Search(s, d, target, work, visited)
         == if node as int == target then [node]
            else if node in visited then Search(s, d, target, rest, visited)
            else [node] + Search(s, d, target, rest + IncidentNodes(s, node), visited + {node})
  {
    assert Next(d, work) in work;
  }

  /** A loop that has emitted `path` and takes the target next emits it and is done. */
  lemma TargetStep(s: Structure, d: Discipline, target: int, work: seq<nat>, visited: set<nat>,
                   path: seq<nat>, whole: seq<nat>)
    requires WellFormed(s) && IdsBelow(work, |s.incident|) && |work| > 0
    requires path + Search(s, d, target, work, visited) == whole
    requires Next(d, work) as int == target
    ensures path + [Next(d, work)] == whole
  {
    SearchStep(s, d, target, work, visited);
  }

  /** A loop that has emitted `path` and takes a visited node next continues with the rest. */
  lemma SkipStep(s: Structure, d: Discipline, target: int, work: seq<nat>, visited: set<nat>,
                 path: seq<nat>, whole: seq<nat>)
    requires WellFormed(s) && IdsBelow(work, |s.incident|) && |work| > 0
    requires path + Search(s, d, target, work, visited) == whole
    requires Next(d, work) as int != target && Next(d, work) in visited
    ensures IdsBelow(Remaining(d, work), |s.incident|)
    ensures path + Search(s, d, target, Remaining(d, work), visited) == whole
  {
    SearchStep(s, d, target, work, visited);
  }

  /**
   * A loop that has emitted `path` and takes a new node next emits it, marks it visited
   * and continues with the rest followed by the node's IncidentNodes.
   */
  lemma EmitStep(s: Structure, d: Discipline, target: int, work: seq<nat>, visited: set<nat>,
                 path: seq<nat>, whole: seq<nat>)
    requires WellFormed(s) && IdsBelow(work, |s.incident|) && |work| > 0
    requires path + Search(s, d, target, work, visited) == whole
    requires Next(d, work) as int != target && Next(d, work) !in visited
    ensures var node, rest := Next(d, work), Remaining(d, work);
      && node < |s.incident|
      && IdsBelow(rest + IncidentNodes(s, node), |s.incident|)
      && (path + [node]) + Search(s, d, target, rest + IncidentNodes(s, node), visited + {node}) == whole
  {
    SearchStep(s, d, target, work, visited);
    var node, rest := Next(d, work), Remaining(d, work);
    var tail := Search(s, d, target, rest + IncidentNodes(s, node), visited + {node});
    assert (path + [node]) + tail == path + ([node] + tail);
  }

  /** `foreach (var incidentNode in node.IncidentNodes) Push(incidentNode)` (or Enqueue). */
  method PushAll(work: seq<nat>, items: seq<nat>) returns (r: seq<nat>)
    ensures r == work + items
  {
    r := work;
    for t := 0 to |items|
      invariant r == work + items[..t]
    {
      assert items[..t + 1] == items[..t] + [items[t]];
      r := r + [items[t]];
    }
    assert items[..|items|] == items;
  }

  /**
   * NodeExtensions.DepthSearch: the walk with a Stack, from startNode, until a node with
   * id endNodeNumber is popped or the stack is empty.
   */
  method DepthSearch(graph: Graph, startNode: nat, endNodeNumber: int) returns (path: seq<nat>)
    requires graph.Valid() && startNode < graph.Length
    ensures path == Search(graph.Value(), Stack, endNodeNumber, [startNode], {})
  {
    var s := graph.Value();
    var n := graph.Length;
    var visited: set<nat> := {};
    var stack: seq<nat> := [startNode];
    path := [];
    while |stack| != 0
      invariant IdsBelow(stack, n)
      invariant path + Search(s, Stack, endNodeNumber, stack, visited)
                == Search(s, Stack, endNodeNumber, [startNode], {})
      decreases Unvisited(visited, n), |stack|
    {
      ghost var whole := Search(s, Stack, endNodeNumber, [startNode], {});
      var node := stack[|stack| - 1];
      var rest := stack[..|stack| - 1];
      if node == endNodeNumber {
        TargetStep(s, Stack, endNodeNumber, stack, visited, path, whole);
        path := path + [node];
        return;
      }
      if node in visited {
        SkipStep(s, Stack, endNodeNumber, stack, visited, path, whole);
        stack := rest;
        continue;
      }
      EmitStep(s, Stack, endNodeNumber, stack, visited, path, whole);
      UnvisitedShrinks(visited, n, node);
      stack := PushAll(rest, IncidentNodes(s, node));
      visited := visited + {node};
      path := path + [node];
    }
  }

  /**
   * NodeExtensions.BreadthSearch: the walk with a Queue, from startNode, until a node with
   * id endNodeNumber is dequeued or the queue is empty.
   */
  method BreadthSearch(graph: Graph, startNode: nat, endNodeNumber: int) returns (path: seq<nat>)
    requires graph.Valid() && startNode < graph.Length
    ensures path == Search(graph.Value(), Queue, endNodeNumber, [startNode], {})
  {
    var s := graph.Value();
    var n := graph.Length;
    var visited: set<nat> := {};
    var queue: seq<nat> := [startNode];
    path := [];
    while |queue| != 0
      invariant IdsBelow(queue, n)
      invariant path + Search(s, Queue, endNodeNumber, queue, visited)
                == Search(s, Queue, endNodeNumber, [startNode], {})
      decreases Unvisited(visited, n), |queue|
    {
      ghost var whole := Search(s, Queue, endNodeNumber, [startNode], {});
      var node := queue[0];
      var rest := queue[1..];
      if node == endNodeNumber {
        TargetStep(s, Queue, endNodeNumber, queue, visited, path, whole);
        path := path + [node];
        return;
      }
      if node in visited {
        SkipStep(s, Queue, endNodeNumber, queue, visited, path, whole);
        queue := rest;
        continue;
      }
      EmitStep(s, Queue, endNodeNumber, queue, visited, path, whole);
      UnvisitedShrinks(visited, n, node);
      queue := PushAll(rest, IncidentNodes(s, node));
      visited := visited + {node};
      path := path + [node];
    }
  }

  // ---------------------------------------------------------------------------
  // What the walk guarantees
  // ---------------------------------------------------------------------------

  /**
   * Nothing is emitted twice and nothing already visited is emitted; the target, if
   * emitted, is the last element and appears nowhere before it.
   */
  lemma {:induction false} SearchFresh(s: Structure, d: Discipline, target: int, work: seq<nat>, visited: set<nat>)
    requires WellFormed(s) && IdsBelow(work, |s.incident|)
    requires forall x :: x in visited ==> x as int != target
    ensures var r := Search(s, d, target, work, visited);
      && NoDuplicates(r)
      && (forall k :: 0 <= k < |r| ==> r[k] !in visited)
      && (forall k :: 0 <= k < |r| - 1 ==> r[k] as int != target)
    decreases Unvisited(visited, |s.incident|), |work|
  {
    if |work| > 0 {
      var node := Next(d, work);
      var rest := Remaining(d, work);
      if node != target {
        if node in visited {
          SearchFresh(s, d, target, rest, visited);
        } else {
          UnvisitedShrinks(visited, |s.incident|, node);
          SearchFresh(s, d, target, rest + IncidentNodes(s, node), visited + {node});
        }
      }
    }
  }

  /** A walk along IncidentNodes: consecutive ids are neighbours. */
  ghost predicate IsPath(s: Structure, p: seq<nat>)
    requires WellFormed(s)
  {
    && |p| > 0
    && (forall i :: 0 <= i < |p| ==> p[i] < |s.incident|)
    && (forall i :: 0 <= i < |p| - 1 ==> p[i + 1] in IncidentNodes(s, p[i]))
  }

  /** b can be reached from a by following IncidentNodes. */
  ghost predicate Reachable(s: Structure, a: nat, b: nat)
    requires WellFormed(s)
  {
    exists p :: IsPath(s, p) && p[0] == a && p[|p| - 1] == b
  }

  lemma ReachableStep(s: Structure, a: nat, x: nat, y: nat)
    requires WellFormed(s) && Reachable(s, a, x) && x < |s.incident| && y in IncidentNodes(s, x)
    ensures Reachable(s, a, y)
  {
    var p :| IsPath(s, p) && p[0] == a && p[|p| - 1] == x;
    var q := p + [y];
    assert q[|p| - 1] == x;
    assert IsPath(s, q);
  }

  /** Every element of l is reachable from start. */
  ghost predicate AllReachable(s: Structure, start: nat, l: seq<nat>)
    requires WellFormed(s)
  {
    forall k :: 0 <= k < |l| ==> Reachable(s, start, l[k])
  }

  /** If everything on the worklist is reachable from `start`, so is everything emitted. */
  lemma {:induction false} SearchReaches(s: Structure, d: Discipline, target: int, start: nat,
                                         work: seq<nat>, visited: set<nat>)
    requires WellFormed(s) && IdsBelow(work, |s.incident|)
    requires AllReachable(s, start, work)
    ensures AllReachable(s, start, Search(s, d, target, work, visited))
    decreases Unvisited(visited, |s.incident|), |work|
  {
    if |work| > 0 {
      SearchStep(s, d, target, work, visited);
      var node := Next(d, work);
      var rest := Remaining(d, work);
      var i :| 0 <= i < |work| && work[i] == node;
      assert Reachable(s, start, node);
      assert AllReachable(s, start, rest) by {
        forall k | 0 <= k < |rest|
          ensures Reachable(s, start, rest[k])
        {
          var j :| 0 <= j < |work| && work[j] == rest[k];
        }
      }
      if node as int == target {
        assert AllReachable(s, start, [node]);
      } else if node in visited {
        SearchReaches(s, d, target, start, rest, visited);
      } else {
        UnvisitedShrinks(visited, |s.incident|, node);
        var nbrs := IncidentNodes(s, node);
        var work' := rest + nbrs;
        assert AllReachable(s, start, work') by {
          forall k | 0 <= k < |work'|
            ensures Reachable(s, start, work'[k])
          {
            if k >= |rest| {
              assert work'[k] == nbrs[k - |rest|];
              ReachableStep(s, start, node, nbrs[k - |rest|]);
            }
          }
        }
        SearchReaches(s, d, target, start, work', visited + {node});
        var R := Search(s, d, target, work', visited + {node});
        var r := [node] + R;
        forall k | 0 <= k < |r|
          ensures Reachable(s, start, r[k])
        {
          if k > 0 {
            assert r[k] == R[k - 1];
          }
        }
      }
    }
  }

  /** No element of r has the target's id. */
  predicate TargetFree(r: seq<nat>, target: int) {
    forall k :: 0 <= k < |r| ==> r[k] as int != target
  }

  /** Every element of l is visited or emitted. */
  predicate Covered(l: seq<nat>, visited: set<nat>, r: seq<nat>) {
    forall k :: 0 <= k < |l| ==> l[k] in visited || l[k] in r
  }

  /** Every neighbour of an element of r is visited or emitted. */
  ghost predicate NeighboursCovered(s: Structure, visited: set<nat>, r: seq<nat>)
    requires WellFormed(s) && IdsBelow(r, |s.incident|)
  {
    forall k :: 0 <= k < |r| ==> Covered(IncidentNodes(s, r[k]), visited, r)
  }

  /**
   * When the target is not emitted, everything on the worklist ends up visited or
   * emitted, and every neighbour of an emitted node does too.
   */
  lemma {:induction false} SearchCloses(s: Structure, d: Discipline, target: int, work: seq<nat>, visited: set<nat>)
    requires WellFormed(s) && IdsBelow(work, |s.incident|)
    ensures var r := Search(s, d, target, work, visited);
      TargetFree(r, target) ==> Covered(work, visited, r) && NeighboursCovered(s, visited, r)
    decreases Unvisited(visited, |s.incident|), |work|
  {
    if |work| > 0 {
      SearchStep(s, d, target, work, visited);
      var node := Next(d, work);
      var rest := Remaining(d, work);
      if node as int == target {
        assert Search(s, d, target, work, visited)[0] as int == target;
      } else if node in visited {
        SearchCloses(s, d, target, rest, visited);
        var r := Search(s, d, target, rest, visited);
        if TargetFree(r, target) {
          SkipCloses(node, work, rest, visited, r);
        }
      } else {
        UnvisitedShrinks(visited, |s.incident|, node);
        var nbrs := IncidentNodes(s, node);
        SearchCloses(s, d, target, rest + nbrs, visited + {node});
        EmitCloses(s, target, node, work, rest, nbrs, visited, Search(s, d, target, rest + nbrs, visited + {node}));
      }
    }
  }

  /** The step case of SearchCloses for a newly visited node. */
  lemma EmitCloses(s: Structure, target: int, node: nat, work: seq<nat>, rest: seq<nat>, nbrs: seq<nat>,
                   visited: set<nat>, R: seq<nat>)
    requires WellFormed(s) && node < |s.incident| && nbrs == IncidentNodes(s, node)
    requires IdsBelow(R, |s.incident|)
    requires forall x :: x in work ==> x in rest || x == node
    requires TargetFree(R, target) ==>
               Covered(rest + nbrs, visited + {node}, R) && NeighboursCovered(s, visited + {node}, R)
    ensures TargetFree([node] + R, target) ==>
              Covered(work, visited, [node] + R) && NeighboursCovered(s, visited, [node] + R)
  {
    if TargetFree([node] + R, target) {
      assert TargetFree(R, target) by {
        forall k | 0 <= k < |R|
          ensures R[k] as int != target
        {
          assert R[k] == ([node] + R)[k + 1];
        }
      }
      CoveredAfterEmit(s, node, rest, nbrs, visited, R);
      EmitCovers(node, work, rest, nbrs, visited, R);
    }
  }

  /** The step case of SearchCloses for a skipped, already visited node. */
  lemma SkipCloses(node: nat, work: seq<nat>, rest: seq<nat>, visited: set<nat>, r: seq<nat>)
    requires node in visited
    requires forall x :: x in work ==> x in rest || x == node
    requires Covered(rest, visited, r)
    ensures Covered(work, visited, r)
  {
    forall k | 0 <= k < |work|
      ensures work[k] in visited || work[k] in r
    {
      if work[k] != node {
        assert work[k] in work;
        var j :| 0 <= j < |rest| && rest[j] == work[k];
      }
    }
  }

  /** The worklist half of the step case of SearchCloses for a newly visited node. */
  lemma EmitCovers(node: nat, work: seq<nat>, rest: seq<nat>, nbrs: seq<nat>, visited: set<nat>, R: seq<nat>)
    requires forall x :: x in work ==> x in rest || x == node
    requires Covered(rest + nbrs, visited + {node}, R)
    ensures Covered(work, visited, [node] + R)
  {
    var r := [node] + R;
    forall k | 0 <= k < |work|
      ensures work[k] in visited || work[k] in r
    {
      if work[k] != node {
        assert work[k] in work;
        var j :| 0 <= j < |rest| && rest[j] == work[k];
        assert (rest + nbrs)[j] == work[k];
      }
    }
  }

  /** The step case of SearchCloses for a newly visited node. */
  lemma CoveredAfterEmit(s: Structure, node: nat, rest: seq<nat>, nbrs: seq<nat>, visited: set<nat>, R: seq<nat>)
    requires WellFormed(s) && node < |s.incident| && nbrs == IncidentNodes(s, node)
    requires IdsBelow(R, |s.incident|)
    requires Covered(rest + nbrs, visited + {node}, R) && NeighboursCovered(s, visited + {node}, R)
    ensures NeighboursCovered(s, visited, [node] + R)
  {
    var r := [node] + R;
    forall k | 0 <= k < |r|
      ensures Covered(IncidentNodes(s, r[k]), visited, r)
    {
      var l := IncidentNodes(s, r[k]);
      forall j | 0 <= j < |l|
        ensures l[j] in visited || l[j] in r
      {
        if k == 0 {
          assert (rest + nbrs)[|rest| + j] == l[j];
        } else {
          assert r[k] == R[k - 1];
        }
      }
    }
  }

  /**
   * A search from `start` emits `[start]` when start is the target, and otherwise starts
   * with `start`; a node is emitted at most once; the target, if emitted, comes last; every
   * emitted node is reachable from `start`; and when the target is not emitted, exactly
   * the nodes reachable from `start` are.
   */
  lemma SearchFromStart(s: Structure, d: Discipline, target: int, start: nat)
    requires WellFormed(s) && start < |s.incident|
    ensures var r := Search(s, d, target, [start], {});
      && (start as int == target ==> r == [start])
      && (start as int != target ==> |r| > 0 && r[0] == start)
      && NoDuplicates(r)
      && (forall k :: 0 <= k < |r| - 1 ==> r[k] as int != target)
      && (forall x :: x in r ==> Reachable(s, start, x))
      && (TargetFree(r, target) ==> forall x: nat :: Reachable(s, start, x) ==> x in r)
  {
    var r := Search(s, d, target, [start], {});
    SearchStep(s, d, target, [start], {});
    assert Remaining(d, [start]) == [];
    SearchFresh(s, d, target, [start], {});
    assert IsPath(s, [start]);
    SearchReaches(s, d, target, start, [start], {});
    forall x | x in r
      ensures Reachable(s, start, x)
    {
      var k :| 0 <= k < |r| && r[k] == x;
    }
    SearchCloses(s, d, target, [start], {});
    if TargetFree(r, target) {
      forall x: nat | Reachable(s, start, x)
        ensures x in r
      {
        var p :| IsPath(s, p) && p[0] == start && p[|p| - 1] == x;
        PathInside(s, r, p);
      }
    }
  }

  /** A path that starts in a neighbour-closed list stays in it. */
  lemma {:induction false} PathInside(s: Structure, r: seq<nat>, p: seq<nat>)
    requires WellFormed(s) && IdsBelow(r, |s.incident|) && NeighboursCovered(s, {}, r)
    requires IsPath(s, p) && p[0] in r
    ensures p[|p| - 1] in r
  {
    if |p| > 1 {
      var p' := p[..|p| - 1];
      assert IsPath(s, p');
      PathInside(s, r, p');
      var x := p[|p| - 2];
      assert x == p'[|p'| - 1] && x in r;
      var k :| 0 <= k < |r| && r[k] == x;
      var l := IncidentNodes(s, x);
      assert p[|p| - 1] in l;
      var j :| 0 <= j < |l| && l[j] == p[|p| - 1];
      assert Covered(l, {}, r);
    }
  }

  // ---------------------------------------------------------------------------
  // The directed triangle 0 -> 1 -> 2 -> 0
  // ---------------------------------------------------------------------------

  /** The neighbours MakeGraph(true, [0, 1, 1, 2, 2, 0]) gives each node. */
  lemma TriangleNeighbours(l: seq<nat>)
    requires l == [0, 1, 1, 2, 2, 0]
    ensures var s := Build(true, l);
      && |s.incident| == 3
      && IncidentNodes(s, 0) == [1] && IncidentNodes(s, 1) == [2] && IncidentNodes(s, 2) == [0]
  {
    TriangleState();
    TriangleEdges(Empty(3));
  }

  /** MakeGraph(true, [0, 1, 1, 2, 2, 0]) is three directional connects on three nodes. */
  lemma TriangleState()
    ensures Build(true, [0, 1, 1, 2, 2, 0])
            == ConnectDirectional(ConnectDirectional(ConnectDirectional(Empty(3), 0, 1), 1, 2), 2, 0)
  {
    var l: seq<nat> := [0, 1, 1, 2, 2, 0];
    assert Max(l) == 2;
    var s0 := Empty(3);
    var s1 := ConnectDirectional(s0, 0, 1);
    var s2 := ConnectDirectional(s1, 1, 2);
    assert l[2..] == [1, 2, 2, 0] && l[2..][2..] == [2, 0];
    assert Replay(true, s0, l) == Replay(true, s1, [1, 2, 2, 0]);
    assert Replay(true, s1, [1, 2, 2, 0]) == Replay(true, s2, [2, 0]);
  }

  lemma TriangleEdges(s0: Structure)
    requires WellFormed(s0) && |s0.incident| == 3
    requires forall k :: 0 <= k < 3 ==> s0.incident[k] == []
    ensures var s := ConnectDirectional(ConnectDirectional(ConnectDirectional(s0, 0, 1), 1, 2), 2, 0);
      IncidentNodes(s, 0) == [1] && IncidentNodes(s, 1) == [2] && IncidentNodes(s, 2) == [0]
  {
    var s1 := ConnectDirectional(s0, 0, 1);
    var s2 := ConnectDirectional(s1, 1, 2);
    assert IncidentNodes(s0, 0) == [] && IncidentNodes(s0, 1) == [] && IncidentNodes(s0, 2) == [];
    ConnectDirectionalEffect(s0, 0, 1);
    ConnectDirectionalEffect(s1, 1, 2);
    ConnectDirectionalEffect(s2, 2, 0);
  }

  /** From a single new node x whose only neighbour is y, the walk emits x and goes on from y. */
  lemma SingleNeighbourStep(s: Structure, d: Discipline, target: int, x: nat, y: nat, visited: set<nat>)
    requires WellFormed(s) && x < |s.incident| && IncidentNodes(s, x) == [y]
    requires x as int != target && x !in visited
    ensures y < |s.incident|
    ensures Search(s, d, target, [x], visited) == [x] + Search(s, d, target, [y], visited + {x})
  {
    SearchStep(s, d, target, [x], visited);
    assert Remaining(d, [x]) + [y] == [y];
  }

  /** On a triangle 0 -> 1 -> 2 -> 0, either walk from 0 with target 2 emits [0, 1, 2]. */
  lemma TriangleSearch(s: Structure, d: Discipline)
    requires WellFormed(s) && |s.incident| == 3
    requires IncidentNodes(s, 0) == [1] && IncidentNodes(s, 1) == [2] && IncidentNodes(s, 2) == [0]
    ensures Search(s, d, 2, [0], {}) == [0, 1, 2]
  {
    var v1: set<nat> := {0};
    assert {} + {0} == v1;
    SingleNeighbourStep(s, d, 2, 0, 1, {});
    TriangleTail(s, d, v1);
  }

  /** From node 1, whose only neighbour is the target 2, the walk emits [1, 2]. */
  lemma TriangleTail(s: Structure, d: Discipline, visited: set<nat>)
    requires WellFormed(s) && |s.incident| == 3 && IncidentNodes(s, 1) == [2] && 1 !in visited
    ensures Search(s, d, 2, [1], visited) == [1, 2]
  {
    SingleNeighbourStep(s, d, 2, 1, 2, visited);
    SearchStep(s, d, 2, [2], visited + {1});
  }

  /** BreadthSearch and DepthSearch from node 0 of MakeGraph(true, [0, 1, 1, 2, 2, 0]) to id 2. */
  lemma TriangleExample(l: seq<nat>)
    requires l == [0, 1, 1, 2, 2, 0]
    ensures Search(Build(true, l), Queue, 2, [0], {}) == [0, 1, 2]
    ensures Search(Build(true, l), Stack, 2, [0], {}) == [0, 1, 2]
  {
    TriangleNeighbours(l);
    TriangleSearch(Build(true, l), Queue);
    TriangleSearch(Build(true, l), Stack);
  }
}
