/**
 * The Graph class of lab4/Graph.cs. Its nodes are the ids 0 .. Length-1; the per-node
 * edge lists live in `incident` (one list of edge indices per id) and the Edge objects
 * in `edges`. The connect methods update these lists in place; the Make* views are the
 * nested loops of the source, each proved to produce the corresponding function of
 * module GraphSpec on the current state.
 */
module GraphModel {
  import opened GraphSpec

  class Graph {
    /** Graph.Length: the number of nodes, fixed at construction. */
    const Length: nat
    /** The Edge objects created so far, identified by their index. */
    var edges: seq<Edge>
    /** Per node id, the node's `edges` list as indices into `edges`. */
    var incident: seq<seq<nat>>

    /** The current state as a value. */
    function Value(): Structure
      reads this
    {
      Structure(edges, incident)
    }

    ghost predicate Valid()
      reads this
    {
      WellFormed(Value()) && |incident| == Length
    }

    /** new Graph(nodesCount): nodes 0 .. nodesCount-1 with empty edge lists. */
    constructor (nodesCount: nat)
      ensures Valid() && Length == nodesCount
      ensures Value() == Empty(nodesCount)
    {
      Length := nodesCount;
      edges := [];
      incident := seq(nodesCount, _ => []);
    }

    /**
     * Graph.DirectionalConnect(index1, index2): one new edge (index1, index2) appended to
     * node index1's list. It returns nothing, as the C# method is void.
     */
    method DirectionalConnect(index1: nat, index2: nat)
      requires Valid() && index1 < Length && index2 < Length
      modifies this
      ensures Valid()
      ensures Value() == ConnectDirectional(old(Value()), index1, index2)
      ensures edges[|old(edges)|] == Edge(index1, index2)
    {
      var edge := |edges|;
      edges := edges + [Edge(index1, index2)];
      incident := incident[index1 := incident[index1] + [edge]];
    }

    /**
     * Graph.NonDirectionalConnect(index1, index2): one new edge (index1, index2) appended to
     * node index1's list and then to node index2's. It returns nothing, as the C# method is void.
     */
    method NonDirectionalConnect(index1: nat, index2: nat)
      requires Valid() && index1 < Length && index2 < Length
      modifies this
      ensures Valid()
      ensures Value() == ConnectNonDirectional(old(Value()), index1, index2)
      ensures edges[|old(edges)|] == Edge(index1, index2)
    {
      var edge := |edges|;
      edges := edges + [Edge(index1, index2)];
      incident := incident[index1 := incident[index1] + [edge]];
      incident := incident[index2 := incident[index2] + [edge]];
    }

    /**
     * MakeAdjacencyMatrix: a Length x Length 0/1 matrix whose cell [j, i] is 1 exactly
     * when node j is among node i's IncidentNodes; symmetric when every edge is
     * registered with both its endpoints.
     */
    method MakeAdjacencyMatrix() returns (matrix: array2<int>)
      requires Valid()
      ensures fresh(matrix) && matrix.Length0 == Length && matrix.Length1 == Length
      ensures forall j, i :: 0 <= j < Length && 0 <= i < Length ==>
                matrix[j, i] == if j in IncidentNodes(Value(), i) then 1 else 0
      ensures AllShared(Value()) ==>
                forall j, i :: 0 <= j < Length && 0 <= i < Length ==> matrix[j, i] == matrix[i, j]
    {
      matrix := new int[Length, Length]((_, _) => 0);
      for i := 0 to Length
        invariant forall j, i' :: 0 <= j < Length && 0 <= i' < Length ==>
                    matrix[j, i'] == if i' < i && j in IncidentNodes(Value(), i') then 1 else 0
      {
        var neighbours := IncidentNodes(Value(), i);
        for j := 0 to Length
          invariant forall j', i' :: 0 <= j' < Length && 0 <= i' < Length ==>
                      matrix[j', i'] ==
                        if (i' < i || (i' == i && j' < j)) && j' in IncidentNodes(Value(), i') then 1 else 0
        {
          if j in neighbours {
            matrix[j, i] := 1;
          }
        }
      }
      if AllShared(Value()) {
        forall j, i | 0 <= j < Length && 0 <= i < Length
          ensures matrix[j, i] == matrix[i, j]
        {
          AdjacencySymmetric(Value(), i, j);
        }
      }
    }

    /**
     * MakeIncidenceMatrix: one column per pair recorded while walking every node's
     * edges (IncidencePairs); column c holds 1 in the rows of its two endpoints and 0
     * elsewhere.
     */
    method MakeIncidenceMatrix() returns (matrix: array2<int>)
      requires Valid()
      ensures fresh(matrix) && matrix.Length0 == Length
      ensures matrix.Length1 == |IncidencePairs(Value())|
      ensures forall r, c :: 0 <= r < Length && 0 <= c < matrix.Length1 ==>
                matrix[r, c] ==
                  if r == IncidencePairs(Value())[c].0 || r == IncidencePairs(Value())[c].1 then 1 else 0
    {
      var pairs := CollectIncidencePairs();
      var count := |pairs|;
      matrix := new int[Length, count]((_, _) => 0);
      for c := 0 to count
        invariant forall r, c' :: 0 <= r < Length && 0 <= c' < count ==>
                    matrix[r, c'] == if c' < c && (r == pairs[c'].0 || r == pairs[c'].1) then 1 else 0
      {
        matrix[pairs[c].0, c] := 1;
        matrix[pairs[c].1, c] := 1;
      }
    }

    /**
     * The first half of MakeIncidenceMatrix: walking every node's edges in id order, the
     * pair (from, to) of each edge whose reverse pair has not been recorded yet.
     */
    method CollectIncidencePairs() returns (pairs: seq<(nat, nat)>)
      requires Valid()
      ensures pairs == IncidencePairs(Value())
    {
      var s := Value();
      pairs := [];
      FlattenPrefixStored(s, 0);
      for k := 0 to Length
        invariant StoredIndices(s, Flatten(incident[..k]))
        invariant pairs == PairsOf(s, Flatten(incident[..k]))
      {
        var list := incident[k];
        assert Flatten(incident[..k]) + list[..0] == Flatten(incident[..k]);
        for t := 0 to |list|
          invariant StoredIndices(s, Flatten(incident[..k]) + list[..t])
          invariant pairs == PairsOf(s, Flatten(incident[..k]) + list[..t])
        {
          var regs := Flatten(incident[..k]) + list[..t];
          var e := edges[list[t]];
          StoredAppend(s, regs, list[t]);
          assert (regs + [list[t]])[..|regs|] == regs;
          assert list[..t + 1] == list[..t] + [list[t]];
          assert Flatten(incident[..k]) + list[..t + 1] == regs + [list[t]];
          assert PairsOf(s, regs + [list[t]])
              == if (e.to, e.from) in pairs then pairs else pairs + [(e.from, e.to)];
          if (e.to, e.from) !in pairs {
            pairs := pairs + [(e.from, e.to)];
          }
        }
        FlattenStep(incident, k);
        assert list[..|list|] == list;
        FlattenPrefixStored(s, k + 1);
      }
      assert incident[..Length] == incident;
    }

    /**
     * MakeAdjacencyList: for every node in id order, the pair (node, incident node) for
     * each of its IncidentNodes in order.
     */
    method MakeAdjacencyList() returns (result: seq<(nat, nat)>)
      requires Valid()
      ensures result == AdjacencyList(Value())
    {
      result := [];
      for k := 0 to Length
        invariant result == AdjacencyListUpTo(Value(), k)
      {
        var neighbours := IncidentNodes(Value(), k);
        for t := 0 to |neighbours|
          invariant result == AdjacencyListUpTo(Value(), k) + PairWith(k, neighbours[..t])
        {
          assert PairWith(k, neighbours[..t + 1]) == PairWith(k, neighbours[..t]) + [(k, neighbours[t])];
          result := result + [(k, neighbours[t])];
        }
        assert neighbours[..|neighbours|] == neighbours;
      }
    }

    /**
     * MakeEdgeList: every node's edges in id order, without removing the second
     * registration of a non-directional edge.
     */
    method MakeEdgeList() returns (result: seq<nat>)
      requires Valid()
      ensures result == Registrations(Value())
    {
      result := [];
      for k := 0 to Length
        invariant result == Flatten(incident[..k])
      {
        var list := incident[k];
        for t := 0 to |list|
          invariant result == Flatten(incident[..k]) + list[..t]
        {
          assert list[..t + 1] == list[..t] + [list[t]];
          result := result + [list[t]];
        }
        FlattenStep(incident, k);
        assert list[..|list|] == list;
      }
      assert incident[..Length] == incident;
    }

    /**
     * Graph.MakeGraph(directional, incidentNodes): a graph of max + 1 nodes, connecting
     * incidentNodes[i] to incidentNodes[i + 1] for i = 0, 2, 4, ... while i < Count - 1.
     */
    static method MakeGraph(directional: bool, incidentNodes: seq<nat>) returns (graph: Graph)
      requires |incidentNodes| > 0
      ensures fresh(graph) && graph.Valid() && graph.Length == Max(incidentNodes) + 1
      ensures graph.Value() == Build(directional, incidentNodes)
    {
      var l := incidentNodes;
      graph := new Graph(Max(l) + 1);
      var i := 0;
      while i < |l| - 1
        invariant 0 <= i <= |l| && fresh(graph)
        invariant graph.Valid() && graph.Length == Max(l) + 1
        invariant Replay(directional, graph.Value(), l[i..]) == Build(directional, l)
      {
        assert l[i..][2..] == l[i + 2..];
        if directional {
          graph.DirectionalConnect(l[i], l[i + 1]);
        } else {
          graph.NonDirectionalConnect(l[i], l[i + 1]);
        }
        i := i + 2;
      }
    }
  }

  /** Every index in the list names a stored edge. */
  ghost predicate StoredIndices(s: Structure, regs: seq<nat>) {
    forall i :: 0 <= i < |regs| ==> regs[i] < |s.edges|
  }

  /** The registrations of the first k nodes name stored edges. */
  lemma FlattenPrefixStored(s: Structure, k: nat)
    requires WellFormed(s) && k <= |s.incident|
    ensures StoredIndices(s, Flatten(s.incident[..k]))
  {
    var regs := Flatten(s.incident[..k]);
    forall i | 0 <= i < |regs|
      ensures regs[i] < |s.edges|
    {
      assert regs[i] in regs;
      var j :| 0 <= j < k && regs[i] in s.incident[..k][j];
      var t :| 0 <= t < |s.incident[j]| && s.incident[j][t] == regs[i];
    }
  }

  /** Extending a stored list by a stored index keeps it stored. */
  lemma StoredAppend(s: Structure, regs: seq<nat>, x: nat)
    requires StoredIndices(s, regs) && x < |s.edges|
    ensures StoredIndices(s, regs + [x])
  {
  }

  /** Flattening one more list appends it. */
  lemma FlattenStep(ls: seq<seq<nat>>, k: nat)
    requires k < |ls|
    ensures Flatten(ls[..k + 1]) == Flatten(ls[..k]) + ls[k]
  {
    assert ls[..k + 1][..k] == ls[..k];
  }
}
