/**
 * The value model of a graph (lab4/Graph.cs).
 *
 * A graph is an edge store, in which an edge is identified by its index, and for every
 * node id 0 .. n-1 the list of edge indices registered with that node, in insertion
 * order. A non-directional edge is ONE index registered with both endpoints, so the
 * identity of the shared Edge object, which the de-duplication in Graph.Edges relies
 * on, survives as the index. The derived views (adjacency list, incidence columns,
 * edge list, Edges) are functions of this value; the class in module GraphModel builds
 * them with loops and is proved to agree with them.
 */
module GraphSpec {
  import opened Outcomes

  /** An edge: the ids of its endpoints. Direction is a matter of where it is registered. */
  datatype Edge = Edge(from: nat, to: nat)

  /** The state of a graph: the edge store and, per node id, its incident-edge list. */
  datatype Structure = Structure(edges: seq<Edge>, incident: seq<seq<nat>>)

  // ---------------------------------------------------------------------------
  // Edge
  // ---------------------------------------------------------------------------

  /** Edge.IsIncident: the node is one of the two endpoints. */
  predicate IsIncident(e: Edge, node: nat) {
    e.from == node || e.to == node
  }

  /**
   * Edge.OtherNode: the far endpoint seen from `node`; ArgumentException when `node`
   * is not an endpoint. A self-loop yields the node itself.
   */
  function OtherNode(e: Edge, node: nat): (r: Result<nat>)
    ensures r.Ok? <==> IsIncident(e, node)
    ensures r.Ok? ==> {r.value, node} == {e.from, e.to}
    ensures r.Ok? && node == e.from ==> r.value == e.to
  {
    if !IsIncident(e, node) then Err(InvalidArgument)
    else if e.from == node then Ok(e.to)
    else Ok(e.from)
  }

  /** Looking back from the far endpoint leads to the node one started from. */
  lemma OtherNodeInvolution(e: Edge, node: nat)
    requires IsIncident(e, node)
    ensures OtherNode(e, node).Ok? && OtherNode(e, OtherNode(e, node).value) == Ok(node)
  {
  }

  // ---------------------------------------------------------------------------
  // Graph state and the connect operations
  // ---------------------------------------------------------------------------

  /**
   * The invariant every reachable state keeps: endpoints are node ids, every registered
   * index names a stored edge incident to the node it is registered with, and every
   * stored edge is registered at least with its `from` node.
   */
  ghost predicate WellFormed(s: Structure) {
    && (forall e :: 0 <= e < |s.edges| ==> s.edges[e].from < |s.incident| && s.edges[e].to < |s.incident|)
    && (forall k, t :: 0 <= k < |s.incident| && 0 <= t < |s.incident[k]| ==>
          s.incident[k][t] < |s.edges| && IsIncident(s.edges[s.incident[k][t]], k))
    && (forall e :: 0 <= e < |s.edges| ==> e in s.incident[s.edges[e].from])
  }

  /** new Graph(n): n nodes, ids 0 .. n-1, no edges. */
  function Empty(n: nat): (s: Structure)
    ensures WellFormed(s) && |s.incident| == n && s.edges == []
    ensures forall k :: 0 <= k < n ==> s.incident[k] == []
  {
    Structure([], seq(n, _ => []))
  }

  /** DirectionalConnect(i, j): a new edge (i, j), registered with node i only. */
  function ConnectDirectional(s: Structure, i: nat, j: nat): (r: Structure)
    requires WellFormed(s) && i < |s.incident| && j < |s.incident|
    ensures WellFormed(r) && |r.incident| == |s.incident|
  {
    Structure(s.edges + [Edge(i, j)], s.incident[i := s.incident[i] + [|s.edges|]])
  }

  /** NonDirectionalConnect(i, j): a new edge (i, j), registered with node i and then with node j. */
  function ConnectNonDirectional(s: Structure, i: nat, j: nat): (r: Structure)
    requires WellFormed(s) && i < |s.incident| && j < |s.incident|
    ensures WellFormed(r) && |r.incident| == |s.incident|
  {
    var e := |s.edges|;
    var first := s.incident[i := s.incident[i] + [e]];
    Structure(s.edges + [Edge(i, j)], first[j := first[j] + [e]])
  }

  function Connect(directional: bool, s: Structure, i: nat, j: nat): (r: Structure)
    requires WellFormed(s) && i < |s.incident| && j < |s.incident|
    ensures WellFormed(r) && |r.incident| == |s.incident|
  {
    if directional then ConnectDirectional(s, i, j) else ConnectNonDirectional(s, i, j)
  }

  /**
   * Node.IncidentEdges: the node's registered edges in insertion order; each is a stored
   * edge that has the node as an endpoint.
   */
  function IncidentEdges(s: Structure, k: nat): (r: seq<nat>)
    requires WellFormed(s) && k < |s.incident|
    ensures forall t :: 0 <= t < |r| ==> r[t] < |s.edges| && IsIncident(s.edges[r[t]], k)
  {
    s.incident[k]
  }

  /**
   * Node.IncidentNodes: for each incident edge, in order, the far endpoint. In a
   * well-formed state OtherNode never throws here.
   */
  function IncidentNodes(s: Structure, k: nat): (r: seq<nat>)
    requires WellFormed(s) && k < |s.incident|
    ensures |r| == |s.incident[k]|
    ensures forall t :: 0 <= t < |r| ==> r[t] < |s.incident|
    ensures forall t :: 0 <= t < |r| ==> Ok(r[t]) == OtherNode(s.edges[s.incident[k][t]], k)
  {
    seq(|s.incident[k]|, t requires 0 <= t < |s.incident[k]| => OtherNode(s.edges[s.incident[k][t]], k).value)
  }

  /**
   * DirectionalConnect adds exactly one edge (i, j), appends its index to node i's list
   * only, so node i gains neighbour j at the end and no other node changes.
   */
  lemma ConnectDirectionalEffect(s: Structure, i: nat, j: nat)
    requires WellFormed(s) && i < |s.incident| && j < |s.incident|
    ensures var r := ConnectDirectional(s, i, j);
      && r.edges == s.edges + [Edge(i, j)]
      && r.incident[i] == s.incident[i] + [|s.edges|]
      && IncidentNodes(r, i) == IncidentNodes(s, i) + [j]
      && forall k :: 0 <= k < |s.incident| && k != i ==>
           r.incident[k] == s.incident[k] && IncidentNodes(r, k) == IncidentNodes(s, k)
  {
    var r := ConnectDirectional(s, i, j);
    assert IncidentNodes(r, i) == IncidentNodes(s, i) + [j];
    forall k | 0 <= k < |s.incident| && k != i
      ensures IncidentNodes(r, k) == IncidentNodes(s, k)
    {
    }
  }

  /**
   * NonDirectionalConnect registers the SAME new edge index with both endpoints (twice
   * with node i when i == j): i gains neighbour j, j gains neighbour i, nothing else changes.
   */
  lemma ConnectNonDirectionalEffect(s: Structure, i: nat, j: nat)
    requires WellFormed(s) && i < |s.incident| && j < |s.incident|
    ensures var r := ConnectNonDirectional(s, i, j); var e := |s.edges|;
      && r.edges == s.edges + [Edge(i, j)]
      && (i != j ==> r.incident[i] == s.incident[i] + [e] && r.incident[j] == s.incident[j] + [e])
      && (i == j ==> r.incident[i] == s.incident[i] + [e, e])
      && (i != j ==>
            IncidentNodes(r, i) == IncidentNodes(s, i) + [j] && IncidentNodes(r, j) == IncidentNodes(s, j) + [i])
      && (i == j ==> IncidentNodes(r, i) == IncidentNodes(s, i) + [i, i])
      && forall k :: 0 <= k < |s.incident| && k != i && k != j ==>
           r.incident[k] == s.incident[k] && IncidentNodes(r, k) == IncidentNodes(s, k)
  {
    var r := ConnectNonDirectional(s, i, j);
    if i != j {
      assert IncidentNodes(r, i) == IncidentNodes(s, i) + [j];
      assert IncidentNodes(r, j) == IncidentNodes(s, j) + [i];
    } else {
      assert IncidentNodes(r, i) == IncidentNodes(s, i) + [i, i];
    }
    forall k | 0 <= k < |s.incident| && k != i && k != j
      ensures IncidentNodes(r, k) == IncidentNodes(s, k)
    {
    }
  }

  // ---------------------------------------------------------------------------
  // Registrations: the incident lists of all nodes, node by node (MakeEdgeList)
  // ---------------------------------------------------------------------------

  /** The total number of registrations: the sum of the lists' lengths. */
  function SumLengths(ls: seq<seq<nat>>): nat {
    if |ls| == 0 then 0 else SumLengths(ls[..|ls| - 1]) + |ls[|ls| - 1]|
  }

  /** The lists concatenated in order. */
  function Flatten(ls: seq<seq<nat>>): (r: seq<nat>)
    ensures |r| == SumLengths(ls)
    ensures forall x :: x in r <==> exists k :: 0 <= k < |ls| && x in ls[k]
  {
    if |ls| == 0 then []
    else
      var front := ls[..|ls| - 1];
      assert forall k :: 0 <= k < |front| ==> front[k] == ls[k];
      Flatten(front) + ls[|ls| - 1]
  }

  /** Every registration of every node, grouped by ascending node id: what MakeEdgeList returns. */
  function Registrations(s: Structure): (r: seq<nat>)
    requires WellFormed(s)
    ensures |r| == SumLengths(s.incident)
  {
    Flatten(s.incident)
  }

  /** Every stored edge is registered somewhere, and nothing else is. */
  lemma RegistrationsAreStoredEdges(s: Structure)
    requires WellFormed(s)
    ensures forall e: nat :: e in Registrations(s) <==> e < |s.edges|
    ensures forall t :: 0 <= t < |Registrations(s)| ==> Registrations(s)[t] < |s.edges|
  {
    forall e: nat
      ensures e in Registrations(s) <==> e < |s.edges|
    {
      if e < |s.edges| {
        assert e in s.incident[s.edges[e].from];
      }
      if e in Registrations(s) {
        var k :| 0 <= k < |s.incident| && e in s.incident[k];
        var t :| 0 <= t < |s.incident[k]| && s.incident[k][t] == e;
      }
    }
    forall t | 0 <= t < |Registrations(s)|
      ensures Registrations(s)[t] < |s.edges|
    {
      assert Registrations(s)[t] in Registrations(s);
    }
  }

  /** Appending x to one list adds |x| registrations. */
  lemma {:induction false} SumLengthsAppendAt(ls: seq<seq<nat>>, i: nat, x: seq<nat>)
    requires i < |ls|
    ensures SumLengths(ls[i := ls[i] + x]) == SumLengths(ls) + |x|
  {
    var ls' := ls[i := ls[i] + x];
    var n := |ls| - 1;
    if i < n {
      assert ls'[..n] == ls[..n][i := ls[i] + x];
      SumLengthsAppendAt(ls[..n], i, x);
    } else {
      assert ls'[..n] == ls[..n];
    }
  }

  /** A list of empty lists holds no registration. */
  lemma {:induction false} SumLengthsOfEmpties(n: nat)
    ensures SumLengths(Empty(n).incident) == 0
  {
    if n > 0 {
      SumLengthsOfEmpties(n - 1);
      assert Empty(n).incident[..n - 1] == Empty(n - 1).incident;
    }
  }

  // ---------------------------------------------------------------------------
  // Graph.Edges: the registrations without repeats, in first-occurrence order
  // ---------------------------------------------------------------------------

  predicate NoDuplicates(r: seq<nat>) {
    forall i, j :: 0 <= i < j < |r| ==> r[i] != r[j]
  }

  /** Enumerable.Distinct: keeps the first occurrence of every element. */
  function Distinct(s: seq<nat>): (r: seq<nat>)
    ensures forall x :: x in r <==> x in s
    ensures NoDuplicates(r)
  {
    if |s| == 0 then []
    else
      var d := Distinct(s[..|s| - 1]);
      assert s == s[..|s| - 1] + [s[|s| - 1]];
      if s[|s| - 1] in d then d else d + [s[|s| - 1]]
  }

  /** The position of the first occurrence of x in s. */
  function FirstIndex(s: seq<nat>, x: nat): (i: nat)
    requires x in s
    ensures i < |s| && s[i] == x && x !in s[..i]
  {
    if s[0] == x then 0
    else
      var i' := FirstIndex(s[1..], x);
      assert s[..i' + 1] == [s[0]] + s[1..][..i'];
      i' + 1
  }

  /** Appending elements does not move the first occurrence of an element already present. */
  lemma {:induction false} FirstIndexOfPrefix(s: seq<nat>, u: seq<nat>, x: nat)
    requires x in s
    ensures x in s + u && FirstIndex(s + u, x) == FirstIndex(s, x)
  {
    if s[0] != x {
      assert (s + u)[1..] == s[1..] + u;
      FirstIndexOfPrefix(s[1..], u, x);
    }
  }

  /** A new element appended at the end first occurs there. */
  lemma {:induction false} FirstIndexOfNew(s: seq<nat>, y: nat)
    requires y !in s
    ensures FirstIndex(s + [y], y) == |s|
  {
    if |s| > 0 {
      assert (s + [y])[1..] == s[1..] + [y];
      FirstIndexOfNew(s[1..], y);
    }
  }

  /** Distinct lists the elements in the order of their first occurrence in the input. */
  lemma {:induction false} DistinctKeepsFirstOccurrenceOrder(s: seq<nat>)
    ensures forall i, j :: 0 <= i < j < |Distinct(s)| ==>
              FirstIndex(s, Distinct(s)[i]) < FirstIndex(s, Distinct(s)[j])
  {
    if |s| > 0 {
      var h, y := s[..|s| - 1], s[|s| - 1];
      DistinctKeepsFirstOccurrenceOrder(h);
      var d := Distinct(h);
      assert s == h + [y];
      forall z | z in h
        ensures FirstIndex(s, z) == FirstIndex(h, z)
      {
        FirstIndexOfPrefix(h, [y], z);
      }
      if y !in d {
        FirstIndexOfNew(h, y);
      }
    }
  }

  /** Graph.Edges: every edge reference reachable from some node, each once. */
  function Edges(s: Structure): (r: seq<nat>)
    requires WellFormed(s)
    ensures NoDuplicates(r)
    ensures forall e: nat :: e in r <==> e < |s.edges|
  {
    RegistrationsAreStoredEdges(s);
    Distinct(Registrations(s))
  }

  /** A repeat-free list whose elements are exactly 0 .. m-1 has length m. */
  lemma {:induction false} NoDuplicatesLength(r: seq<nat>, m: nat)
    requires NoDuplicates(r)
    requires forall x: nat :: x in r <==> x < m
    ensures |r| == m
  {
    if |r| > 0 {
      assert r[0] in r;
    }
    if m > 0 {
      assert m - 1 in r;
      var p :| 0 <= p < |r| && r[p] == m - 1;
      RemoveLargest(r, m, p);
      NoDuplicatesLength(r[..p] + r[p + 1..], m - 1);
    }
  }

  /** Removing the largest of the ids 0 .. m-1 from a list holding each once. */
  lemma RemoveLargest(r: seq<nat>, m: nat, p: nat)
    requires NoDuplicates(r) && forall x: nat :: x in r <==> x < m
    requires p < |r| && r[p] == m - 1
    ensures var r' := r[..p] + r[p + 1..];
      && |r'| == |r| - 1 && NoDuplicates(r')
      && forall x: nat :: x in r' <==> x < m - 1
  {
    var r' := r[..p] + r[p + 1..];
    assert forall q :: 0 <= q < |r'| ==> r'[q] == if q < p then r[q] else r[q + 1];
    forall x: nat
      ensures x in r' <==> x < m - 1
    {
      if x in r' {
        var q :| 0 <= q < |r'| && r'[q] == x;
        var q0 := if q < p then q else q + 1;
        assert r[q0] == x && q0 != p;
        assert x in r;
      }
      if x < m - 1 {
        assert x in r;
        var q :| 0 <= q < |r| && r[q] == x;
        assert r'[if q < p then q else q - 1] == x;
      }
    }
  }

  /**
   * Graph.Edges holds every stored edge exactly once, although a non-directional edge
   * is registered with two nodes: its length is the number of connect calls.
   */
  lemma EdgesListsEveryEdgeOnce(s: Structure)
    requires WellFormed(s)
    ensures NoDuplicates(Edges(s))
    ensures forall e: nat :: e in Edges(s) <==> e < |s.edges|
    ensures |Edges(s)| == |s.edges|
  {
    RegistrationsAreStoredEdges(s);
    NoDuplicatesLength(Edges(s), |s.edges|);
  }

  // ---------------------------------------------------------------------------
  // MakeAdjacencyList and the adjacency relation behind MakeAdjacencyMatrix
  // ---------------------------------------------------------------------------

  function PairWith(k: nat, ns: seq<nat>): seq<(nat, nat)> {
    seq(|ns|, t requires 0 <= t < |ns| => (k, ns[t]))
  }

  /** The (node, incident node) pairs of the nodes 0 .. k-1, node by node. */
  function AdjacencyListUpTo(s: Structure, k: nat): seq<(nat, nat)>
    requires WellFormed(s) && k <= |s.incident|
  {
    if k == 0 then [] else AdjacencyListUpTo(s, k - 1) + PairWith(k - 1, IncidentNodes(s, k - 1))
  }

  /** What MakeAdjacencyList returns. */
  function AdjacencyList(s: Structure): (r: seq<(nat, nat)>)
    requires WellFormed(s)
    ensures |r| == SumLengths(s.incident)
    ensures forall p :: 0 <= p < |r| ==> r[p].0 < |s.incident| && r[p].1 in IncidentNodes(s, r[p].0)
  {
    AdjacencyListUpToFacts(s, |s.incident|);
    assert s.incident[..|s.incident|] == s.incident;
    AdjacencyListUpTo(s, |s.incident|)
  }

  lemma {:induction false} AdjacencyListUpToFacts(s: Structure, k: nat)
    requires WellFormed(s) && k <= |s.incident|
    ensures var r := AdjacencyListUpTo(s, k);
      && |r| == SumLengths(s.incident[..k])
      && (forall p :: 0 <= p < |r| ==> r[p].0 < k && r[p].1 in IncidentNodes(s, r[p].0))
      && (forall p, q :: 0 <= p < q < |r| ==> r[p].0 <= r[q].0)
      && (forall a, t :: 0 <= a < k && 0 <= t < |s.incident[a]| ==> (a, IncidentNodes(s, a)[t]) in r)
  {
    if k > 0 {
      AdjacencyListUpToFacts(s, k - 1);
      assert s.incident[..k][..k - 1] == s.incident[..k - 1];
      var r := AdjacencyListUpTo(s, k);
      var front := AdjacencyListUpTo(s, k - 1);
      var block := PairWith(k - 1, IncidentNodes(s, k - 1));
      assert r == front + block;
      forall a, t | 0 <= a < k && 0 <= t < |s.incident[a]|
        ensures (a, IncidentNodes(s, a)[t]) in r
      {
        if a == k - 1 {
          assert r[|front| + t] == block[t];
        }
      }
    }
  }

  /**
   * MakeAdjacencyList: one pair (node, incident node) per registration, grouped by
   * ascending node id; a pair is listed exactly when its second id is among the
   * first node's IncidentNodes.
   */
  lemma AdjacencyListFacts(s: Structure)
    requires WellFormed(s)
    ensures var r := AdjacencyList(s);
      && |r| == |Registrations(s)|
      && (forall p, q :: 0 <= p < q < |r| ==> r[p].0 <= r[q].0)
      && (forall p :: 0 <= p < |r| ==> r[p].0 < |s.incident| && r[p].1 in IncidentNodes(s, r[p].0))
      && (forall a, t :: 0 <= a < |s.incident| && 0 <= t < |s.incident[a]| ==>
            (a, IncidentNodes(s, a)[t]) in r)
  {
    AdjacencyListUpToFacts(s, |s.incident|);
    assert s.incident[..|s.incident|] == s.incident;
  }

  /** Every edge is registered with both its endpoints: what NonDirectionalConnect produces. */
  ghost predicate AllShared(s: Structure) {
    WellFormed(s) && forall e :: 0 <= e < |s.edges| ==> e in s.incident[s.edges[e].to]
  }

  lemma AdjacentBack(s: Structure, i: nat, j: nat)
    requires AllShared(s) && i < |s.incident| && j < |s.incident|
    requires j in IncidentNodes(s, i)
    ensures i in IncidentNodes(s, j)
  {
    var t :| 0 <= t < |s.incident[i]| && IncidentNodes(s, i)[t] == j;
    var e := s.incident[i][t];
    var edge := s.edges[e];
    assert {j, i} == {edge.from, edge.to};
    assert e in s.incident[j];
    var t' :| 0 <= t' < |s.incident[j]| && s.incident[j][t'] == e;
    assert OtherNode(edge, j).value == i;
    assert IncidentNodes(s, j)[t'] == i;
  }

  /**
   * The adjacency relation of MakeAdjacencyMatrix (cell [j, i] is 1 iff j is among
   * node i's IncidentNodes) is symmetric when every edge is registered with both ends.
   */
  lemma AdjacencySymmetric(s: Structure, i: nat, j: nat)
    requires AllShared(s) && i < |s.incident| && j < |s.incident|
    ensures j in IncidentNodes(s, i) <==> i in IncidentNodes(s, j)
  {
    if j in IncidentNodes(s, i) {
      AdjacentBack(s, i, j);
    }
    if i in IncidentNodes(s, j) {
      AdjacentBack(s, j, i);
    }
  }

  lemma EmptyAllShared(n: nat)
    ensures AllShared(Empty(n))
  {
  }

  /** NonDirectionalConnect keeps every edge registered with both its endpoints. */
  lemma ConnectNonDirectionalKeepsShared(s: Structure, i: nat, j: nat)
    requires AllShared(s) && i < |s.incident| && j < |s.incident|
    ensures AllShared(ConnectNonDirectional(s, i, j))
  {
    var r := ConnectNonDirectional(s, i, j);
    forall e | 0 <= e < |r.edges|
      ensures e in r.incident[r.edges[e].to]
    {
      if e < |s.edges| {
        assert e in s.incident[s.edges[e].to];
      }
    }
  }

  // ---------------------------------------------------------------------------
  // MakeIncidenceMatrix: the recorded (From, To) pairs, one column each
  // ---------------------------------------------------------------------------

  /**
   * The pairs recorded while walking the registrations in order: an edge's (From, To)
   * is appended unless its REVERSE (To, From) is already recorded; an equal pair is not
   * looked for, so an edge seen from both endpoints is recorded twice.
   */
  function PairsOf(s: Structure, regs: seq<nat>): (r: seq<(nat, nat)>)
    requires forall t :: 0 <= t < |regs| ==> regs[t] < |s.edges|
    ensures |r| <= |regs|
    ensures forall c :: 0 <= c < |r| ==> Edge(r[c].0, r[c].1) in s.edges
  {
    if |regs| == 0 then []
    else
      var acc := PairsOf(s, regs[..|regs| - 1]);
      var e := s.edges[regs[|regs| - 1]];
      if (e.to, e.from) in acc then acc else acc + [(e.from, e.to)]
  }

  /** The columns of MakeIncidenceMatrix. */
  function IncidencePairs(s: Structure): (r: seq<(nat, nat)>)
    requires WellFormed(s)
    ensures |r| <= |Registrations(s)|
    ensures forall c :: 0 <= c < |r| ==> r[c].0 < |s.incident| && r[c].1 < |s.incident|
  {
    RegistrationsAreStoredEdges(s);
    PairsOf(s, Registrations(s))
  }

  /**
   * Every registered edge is represented by a column: its own pair, or the reverse pair
   * recorded before it. Later registrations only append columns.
   */
  lemma {:induction false} PairsOfCoverRegistrations(s: Structure, regs: seq<nat>)
    requires forall t :: 0 <= t < |regs| ==> regs[t] < |s.edges|
    ensures forall t :: 0 <= t < |regs| ==>
              (s.edges[regs[t]].from, s.edges[regs[t]].to) in PairsOf(s, regs)
              || (s.edges[regs[t]].to, s.edges[regs[t]].from) in PairsOf(s, regs[..t])
  {
    if |regs| > 0 {
      var front := regs[..|regs| - 1];
      PairsOfCoverRegistrations(s, front);
      var acc := PairsOf(s, front);
      assert forall p :: p in acc ==> p in PairsOf(s, regs);
      forall t | 0 <= t < |regs| - 1
        ensures regs[t] == front[t] && regs[..t] == front[..t]
      {
      }
      assert regs[..|regs| - 1] == front;
    }
  }

  // ---------------------------------------------------------------------------
  // MakeGraph: a graph of max(ids) + 1 nodes, one connect per complete pair of ids
  // ---------------------------------------------------------------------------

  /** Every id in the list addresses one of n nodes. */
  predicate IdsBelow(l: seq<nat>, n: nat) {
    forall k :: 0 <= k < |l| ==> l[k] < n
  }

  /** Enumerable.Max over a non-empty list. */
  function Max(l: seq<nat>): (m: nat)
    requires |l| > 0
    ensures m in l && forall k :: 0 <= k < |l| ==> l[k] <= m
  {
    if |l| == 1 then l[0]
    else
      var m' := Max(l[1..]);
      assert l == [l[0]] + l[1..];
      if l[0] > m' then l[0] else m'
  }

  /** Connects (l[0], l[1]), (l[2], l[3]), ... in order; a trailing odd id is ignored. */
  function Replay(directional: bool, s: Structure, l: seq<nat>): (r: Structure)
    requires WellFormed(s) && IdsBelow(l, |s.incident|)
    ensures WellFormed(r) && |r.incident| == |s.incident|
    decreases |l|
  {
    if |l| < 2 then s
    else
      Replay(directional, Connect(directional, s, l[0], l[1]), l[2..])
  }

  /** The state Graph.MakeGraph(directional, l) builds. */
  function Build(directional: bool, l: seq<nat>): (s: Structure)
    requires |l| > 0
    ensures WellFormed(s) && |s.incident| == Max(l) + 1
  {
    Replay(directional, Empty(Max(l) + 1), l)
  }

  /** From index `start` on, `edges` holds one edge (l[2k], l[2k+1]) per complete pair of l. */
  ghost predicate PairedFrom(edges: seq<Edge>, start: nat, l: seq<nat>) {
    && |edges| == start + |l| / 2
    && forall k :: 0 <= k < |l| / 2 ==> edges[start + k] == Edge(l[2 * k], l[2 * k + 1])
  }

  /** Replay stores one edge (l[2k], l[2k+1]) per complete pair, after the edges already there. */
  lemma {:induction false} ReplayEdges(directional: bool, s: Structure, l: seq<nat>)
    requires WellFormed(s) && IdsBelow(l, |s.incident|)
    ensures var r := Replay(directional, s, l);
      PairedFrom(r.edges, |s.edges|, l) && r.edges[..|s.edges|] == s.edges
    decreases |l|
  {
    if |l| >= 2 {
      var s' := Connect(directional, s, l[0], l[1]);
      assert s'.edges == s.edges + [Edge(l[0], l[1])];
      ReplayEdges(directional, s', l[2..]);
      var r := Replay(directional, s, l);
      assert r == Replay(directional, s', l[2..]);
      EdgesAfterPair(s.edges, s'.edges, r.edges, l);
    } else {
      assert |l| / 2 == 0;
    }
  }

  /** The step of ReplayEdges: the edges stored after one pair and the rest of the list. */
  lemma EdgesAfterPair(before: seq<Edge>, mid: seq<Edge>, after: seq<Edge>, l: seq<nat>)
    requires |l| >= 2 && mid == before + [Edge(l[0], l[1])]
    requires PairedFrom(after, |mid|, l[2..]) && after[..|mid|] == mid
    ensures PairedFrom(after, |before|, l) && after[..|before|] == before
  {
    assert |l[2..]| / 2 == |l| / 2 - 1;
    forall k | 0 <= k < |l| / 2
      ensures after[|before| + k] == Edge(l[2 * k], l[2 * k + 1])
    {
      if k == 0 {
        assert after[..|mid|][|before|] == mid[|before|];
      } else {
        assert |mid| + (k - 1) == |before| + k;
        assert l[2..][2 * (k - 1)] == l[2 * k];
        assert l[2..][2 * (k - 1) + 1] == l[2 * k + 1];
      }
    }
    assert after[..|before|] == after[..|mid|][..|before|];
  }

  /** Replay adds one registration per pair when directional, two otherwise. */
  lemma {:induction false} ReplayRegistrations(directional: bool, s: Structure, l: seq<nat>)
    requires WellFormed(s) && IdsBelow(l, |s.incident|)
    ensures SumLengths(Replay(directional, s, l).incident)
            == SumLengths(s.incident) + (if directional then 1 else 2) * (|l| / 2)
    decreases |l|
  {
    if |l| >= 2 {
      var s' := Connect(directional, s, l[0], l[1]);
      ConnectRegistrations(directional, s, l[0], l[1]);
      ReplayRegistrations(directional, s', l[2..]);
      var c, k := if directional then 1 else 2, |l| / 2;
      assert |l[2..]| / 2 == k - 1;
      assert c * k == c * (k - 1) + c;
      assert Replay(directional, s, l) == Replay(directional, s', l[2..]);
    }
  }

  /** One connect adds one registration, or two when non-directional. */
  lemma ConnectRegistrations(directional: bool, s: Structure, i: nat, j: nat)
    requires WellFormed(s) && i < |s.incident| && j < |s.incident|
    ensures SumLengths(Connect(directional, s, i, j).incident)
            == SumLengths(s.incident) + (if directional then 1 else 2)
  {
    var e := |s.edges|;
    SumLengthsAppendAt(s.incident, i, [e]);
    if !directional {
      SumLengthsAppendAt(s.incident[i := s.incident[i] + [e]], j, [e]);
    }
  }

  /** Replaying non-directionally keeps every edge registered with both endpoints. */
  lemma {:induction false} ReplayAllShared(s: Structure, l: seq<nat>)
    requires AllShared(s) && IdsBelow(l, |s.incident|)
    ensures AllShared(Replay(false, s, l))
    decreases |l|
  {
    if |l| >= 2 {
      ConnectNonDirectionalKeepsShared(s, l[0], l[1]);
      ReplayAllShared(ConnectNonDirectional(s, l[0], l[1]), l[2..]);
    }
  }

  /**
   * MakeGraph(d, l): max(l) + 1 nodes, and the k-th stored edge is (l[2k], l[2k+1]) for
   * every complete pair; a trailing odd id is ignored.
   */
  lemma BuildEdges(directional: bool, l: seq<nat>)
    requires |l| > 0
    ensures var s := Build(directional, l);
      && |s.incident| == Max(l) + 1
      && |s.edges| == |l| / 2
      && (forall k :: 0 <= k < |l| / 2 ==> s.edges[k] == Edge(l[2 * k], l[2 * k + 1]))
  {
    ReplayEdges(directional, Empty(Max(l) + 1), l);
  }

  /**
   * After MakeGraph(d, l), MakeEdgeList has one entry per stored edge when directional
   * and two when not, while Edges has exactly one.
   */
  lemma BuildRegistrations(directional: bool, l: seq<nat>)
    requires |l| > 0
    ensures var s := Build(directional, l);
      |Registrations(s)| == (if directional then 1 else 2) * |Edges(s)|
  {
    var n := Max(l) + 1;
    var s := Build(directional, l);
    ReplayEdges(directional, Empty(n), l);
    ReplayRegistrations(directional, Empty(n), l);
    SumLengthsOfEmpties(n);
    EdgesListsEveryEdgeOnce(s);
  }

  /** A non-directional MakeGraph registers every edge with both its endpoints. */
  lemma BuildShared(l: seq<nat>)
    requires |l| > 0
    ensures AllShared(Build(false, l))
  {
    EmptyAllShared(Max(l) + 1);
    ReplayAllShared(Empty(Max(l) + 1), l);
  }

  // ---------------------------------------------------------------------------
  // Worked examples
  // ---------------------------------------------------------------------------

  /** The state MakeGraph(false, [0, 1, 2, 3]) builds: two connects in order. */
  lemma TwoEdgeExampleState()
    ensures Build(false, [0, 1, 2, 3])
            == ConnectNonDirectional(ConnectNonDirectional(Empty(4), 0, 1), 2, 3)
  {
    var l: seq<nat> := [0, 1, 2, 3];
    assert Max(l) == 3;
    var s0 := Empty(4);
    var s1 := ConnectNonDirectional(s0, 0, 1);
    assert l[2..] == [2, 3];
    assert Replay(false, s0, l) == Replay(false, s1, [2, 3]);
  }

  /** Node k of a fresh graph has no neighbours. */
  lemma EmptyHasNoNeighbours(n: nat, k: nat)
    requires k < n
    ensures IncidentNodes(Empty(n), k) == []
  {
  }

  /** The neighbours of each node after connecting (0, 1) and then (2, 3) non-directionally. */
  lemma TwoEdgeExampleNeighbours(s0: Structure)
    requires WellFormed(s0) && |s0.incident| == 4
    requires forall k :: 0 <= k < 4 ==> IncidentNodes(s0, k) == []
    ensures var s := ConnectNonDirectional(ConnectNonDirectional(s0, 0, 1), 2, 3);
      && IncidentNodes(s, 0) == [1] && IncidentNodes(s, 1) == [0]
      && IncidentNodes(s, 2) == [3] && IncidentNodes(s, 3) == [2]
  {
    var s1 := ConnectNonDirectional(s0, 0, 1);
    ConnectNonDirectionalEffect(s0, 0, 1);
    ConnectNonDirectionalEffect(s1, 2, 3);
  }

  /** The adjacency list of a four-node state whose neighbours are 0-1 and 2-3. */
  lemma TwoEdgeExampleAdjacency(s: Structure)
    requires WellFormed(s) && |s.incident| == 4
    requires IncidentNodes(s, 0) == [1] && IncidentNodes(s, 1) == [0]
    requires IncidentNodes(s, 2) == [3] && IncidentNodes(s, 3) == [2]
    ensures AdjacencyList(s) == [(0, 1), (1, 0), (2, 3), (3, 2)]
  {
    assert AdjacencyListUpTo(s, 1) == [(0, 1)];
    assert AdjacencyListUpTo(s, 2) == [(0, 1), (1, 0)];
    assert AdjacencyListUpTo(s, 3) == [(0, 1), (1, 0), (2, 3)];
  }

  /** MakeGraph(false, [0, 1, 2, 3]) lists both directions of each of its two edges. */
  lemma AdjacencyListExample()
    ensures AdjacencyList(Build(false, [0, 1, 2, 3])) == [(0, 1), (1, 0), (2, 3), (3, 2)]
  {
    TwoEdgeExampleState();
    var s0 := Empty(4);
    forall k | 0 <= k < 4
      ensures IncidentNodes(s0, k) == []
    {
      EmptyHasNoNeighbours(4, k);
    }
    TwoEdgeExampleNeighbours(s0);
    TwoEdgeExampleAdjacency(ConnectNonDirectional(ConnectNonDirectional(s0, 0, 1), 2, 3));
  }

  /** The incidence columns of a state whose one edge (0, 1) is registered with nodes 0 and 1. */
  lemma OneEdgeExampleColumns(s: Structure)
    requires WellFormed(s) && s.edges == [Edge(0, 1)] && s.incident == [[0], [0]]
    ensures IncidencePairs(s) == [(0, 1), (0, 1)]
  {
    assert s.incident[..1] == [[0]];
    assert s.incident[..1][..0] == [];
    assert Flatten(s.incident[..1]) == [0];
    assert Registrations(s) == [0, 0];
    assert [0, 0][..1] == [0];
    assert [0][..0] == [];
    assert PairsOf(s, [0]) == [(0, 1)];
  }

  /** The state MakeGraph(false, [0, 1]) builds: one edge, registered with both nodes. */
  lemma OneEdgeExampleState()
    ensures var s := Build(false, [0, 1]);
      s.edges == [Edge(0, 1)] && s.incident == [[0], [0]]
  {
    var l: seq<nat> := [0, 1];
    assert Max(l) == 1;
    var s0 := Empty(2);
    assert Build(false, l) == ConnectNonDirectional(s0, 0, 1) by {
      assert Replay(false, s0, l) == Replay(false, ConnectNonDirectional(s0, 0, 1), []);
    }
    OneEdgeConnect(s0);
  }

  lemma OneEdgeConnect(s0: Structure)
    requires s0 == Empty(2)
    ensures var s := ConnectNonDirectional(s0, 0, 1);
      s.edges == [Edge(0, 1)] && s.incident == [[0], [0]]
  {
    assert s0.edges == [] && s0.incident == [[], []];
    var first := s0.incident[0 := s0.incident[0] + [0]];
    assert |first| == 2 && first[0] == [0] && first[1] == [];
    var second := first[1 := first[1] + [0]];
    assert ConnectNonDirectional(s0, 0, 1).incident == second;
    assert |second| == 2 && second[0] == [0] && second[1] == [0];
  }

  /**
   * MakeIncidenceMatrix skips only REVERSE pairs: one non-directional edge between
   * nodes 0 and 1 yields two identical columns (0, 1).
   */
  lemma IncidenceDuplicateColumnsExample()
    ensures IncidencePairs(Build(false, [0, 1])) == [(0, 1), (0, 1)]
  {
    OneEdgeExampleState();
    OneEdgeExampleColumns(Build(false, [0, 1]));
  }
}
