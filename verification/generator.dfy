/**
 * Generator.GenerateGraph (lab4/Generator.cs): draw a node count and an edge count, then
 * accept random pairs of node ids one at a time until enough are accepted, keeping an
 * int[,] presence matrix and the list of accepted pairs, and build the graph with
 * Graph.MakeGraph.
 *
 * The random draws are parameters: the two counts, constrained by what Random.Next
 * promises, and the sequence of candidate pairs the loop would draw. Running out of
 * candidates is reported as Exhausted where the source would keep drawing.
 */
module Generator {
  import opened Outcomes
  import opened GraphSpec
  import opened GraphModel

  /** The C# int. */
  newtype int32 = x: int | -0x8000_0000 <= x < 0x8000_0000

  const Int32Max: int := 0x7fff_ffff

  /** The parameters of GenerateGraph. */
  datatype Config = Config(
    minCountNode: int32, maxCountNode: int32,
    minCountEdge: int32, maxCountEdge: int32,
    maxEgdesAboveNode: int32, directional: bool,
    maxOutEdges: int32, maxInEdges: int32)

  /** An accepted pair (Item1, Item2) of node ids. */
  type Pair = (nat, nat)

  // ---------------------------------------------------------------------------
  // The random draws
  // ---------------------------------------------------------------------------

  /**
   * What Random.Next(lo, hi) may return when it does not throw (lo <= hi): lo when the
   * range is empty, otherwise a value in [lo, hi). Random.Next(n) is Next(0, n).
   */
  predicate IsNextDraw(lo: int, hi: int, x: int) {
    lo <= hi && (if lo == hi then x == lo else lo <= x < hi)
  }

  /** maxValue + 1 in unchecked Int32 arithmetic: wraps to the minimum at the maximum. */
  function Successor(x: int32): (r: int32)
    ensures (r as int - x as int - 1) % 0x1_0000_0000 == 0
  {
    if x as int == Int32Max then -0x8000_0000 else x + 1
  }

  /**
   * countOfNodes = Next(minCountNode, maxCountNode + 1) lies in [minCountNode, maxCountNode];
   * the same holds for countOfEdges.
   */
  lemma DrawInRange(lo: int32, hi: int32, x: int)
    requires lo <= hi && hi as int < Int32Max
    requires IsNextDraw(lo as int, Successor(hi) as int, x)
    ensures lo as int <= x <= hi as int
  {
  }

  // ---------------------------------------------------------------------------
  // The "too many edges" guard: Enumerable.Range(1, E).Sum()
  // ---------------------------------------------------------------------------

  /** 1 + 2 + ... + e: never below e, so the guard `E > 1 + 2 + ... + E` never holds. */
  function TriangularSum(e: nat): (t: nat)
    ensures e <= t
  {
    if e == 0 then 0 else TriangularSum(e - 1) + e
  }

  lemma {:induction false} TriangularClosedForm(e: nat)
    ensures 2 * TriangularSum(e) == e * (e + 1)
  {
    if e > 0 {
      TriangularClosedForm(e - 1);
    }
  }

  lemma {:induction false} TriangularSumMonotone(a: nat, b: nat)
    requires a <= b
    ensures TriangularSum(a) <= TriangularSum(b)
    decreases b - a
  {
    if a < b {
      TriangularSumMonotone(a + 1, b);
    }
  }

  /**
   * The checked Int32 sum overflows exactly from E = 65536 on:
   * 1 + ... + 65535 = 2147450880 and 1 + ... + 65536 = 2147516416.
   */
  lemma SumOverflowsExactlyFrom(e: nat)
    ensures TriangularSum(e) > Int32Max <==> e >= 65536
  {
    TriangularClosedForm(65535);
    assert TriangularSum(65536) == TriangularSum(65535) + 65536;
    if e >= 65536 {
      TriangularSumMonotone(65536, e);
    } else {
      TriangularSumMonotone(e, 65535);
    }
  }

  // ---------------------------------------------------------------------------
  // The presence matrix as a function of the accepted pairs
  // ---------------------------------------------------------------------------

  /**
   * matrix[a, b] != 0 after accepting E: (a, b) was accepted, or, when undirected,
   * (b, a) was.
   */
  predicate Present(E: seq<Pair>, directional: bool, a: nat, b: nat) {
    (a, b) in E || (!directional && (b, a) in E)
  }

  /** The number of rows i < rows with matrix[i, col] != 0 (lines 68-77). */
  function ColumnCount(E: seq<Pair>, directional: bool, rows: nat, col: nat): (c: nat)
    ensures c <= rows
  {
    if rows == 0 then 0
    else ColumnCount(E, directional, rows - 1, col) + (if Present(E, directional, rows - 1, col) then 1 else 0)
  }

  /** Before anything is accepted every column is empty. */
  lemma {:induction false} ColumnCountOfNone(d: bool, rows: nat, col: nat)
    ensures ColumnCount([], d, rows, col) == 0
  {
    if rows > 0 {
      ColumnCountOfNone(d, rows - 1, col);
    }
  }

  /** Every column count of an n x n matrix is at most cap. */
  ghost predicate ColumnsAtMost(E: seq<Pair>, d: bool, n: nat, cap: int) {
    forall c :: 0 <= c < n ==> ColumnCount(E, d, n, c) <= cap
  }

  /** edges.Where(e => e.Item2 == node).Count(): accepted pairs ending at node. */
  function CountEndingAt(E: seq<Pair>, node: nat): (c: nat)
    ensures c <= |E|
  {
    if |E| == 0 then 0
    else CountEndingAt(E[..|E| - 1], node) + (if E[|E| - 1].1 == node then 1 else 0)
  }

  /** edges.Where(e => e.Item1 == node).Count(): accepted pairs starting at node. */
  function CountStartingAt(E: seq<Pair>, node: nat): (c: nat)
    ensures c <= |E|
  {
    if |E| == 0 then 0
    else CountStartingAt(E[..|E| - 1], node) + (if E[|E| - 1].0 == node then 1 else 0)
  }

  /**
   * The accepted pairs with node as an endpoint, in both directions; a self-loop counts
   * twice, as it is registered twice with its node when undirected.
   */
  function Degree(E: seq<Pair>, node: nat): (c: nat)
    ensures c <= 2 * |E|
  {
    CountStartingAt(E, node) + CountEndingAt(E, node)
  }

  // ---------------------------------------------------------------------------
  // The acceptance test
  // ---------------------------------------------------------------------------

  /**
   * Lines 56-82 as written: reject (u, v) when (v, u) is present in directional mode,
   * when (u, v) or (v, u) is present, when directional and the number of accepted pairs
   * ending at u exceeds maxInEdges or starting at v exceeds maxOutEdges, or when the
   * column count of u or of v exceeds maxEgdesAboveNode; all counts are taken before
   * the insertion. In directional mode matrix[i, node] is set only by an accepted
   * (i, node), so the column count is the node's in-degree alone.
   */
  predicate AcceptsAsWritten(cfg: Config, n: nat, E: seq<Pair>, u: nat, v: nat)
    ensures AcceptsAsWritten(cfg, n, E, u, v) ==> (u, v) !in E && (v, u) !in E
    ensures AcceptsAsWritten(cfg, n, E, u, v) ==>
              ColumnCount(E, cfg.directional, n, v) <= cfg.maxEgdesAboveNode as int
  {
    var d := cfg.directional;
    var inEdges := CountEndingAt(E, u);
    var outEdges := CountStartingAt(E, v);
    var countFirstNode := ColumnCount(E, d, n, u);
    var countSecondNode := ColumnCount(E, d, n, v);
    && !(d && Present(E, d, v, u))
    && !(Present(E, d, u, v) || Present(E, d, v, u))
    && !((d && (outEdges > cfg.maxOutEdges as int || inEdges > cfg.maxInEdges as int))
         || countFirstNode > cfg.maxEgdesAboveNode as int
         || countSecondNode > cfg.maxEgdesAboveNode as int)
  }

  /**
   * The test the parameter names promise: the pair is new in either direction, and
   * accepting it pushes neither endpoint's edges in both directions above
   * maxEgdesAboveNode nor, when directional, the out-degree of its source above
   * maxOutEdges or the in-degree of its target above maxInEdges.
   */
  predicate AcceptsIntended(cfg: Config, n: nat, E: seq<Pair>, u: nat, v: nat) {
    var d := cfg.directional;
    var after := E + [(u, v)];
    && !(Present(E, d, u, v) || Present(E, d, v, u))
    && Degree(after, u) <= cfg.maxEgdesAboveNode as int
    && Degree(after, v) <= cfg.maxEgdesAboveNode as int
    && (d ==> CountStartingAt(after, u) <= cfg.maxOutEdges as int && CountEndingAt(after, v) <= cfg.maxInEdges as int)
  }

  /** Which acceptance test the sampling loop applies. */
  datatype Rule = AsWritten | Intended

  predicate Accepts(rule: Rule, cfg: Config, n: nat, E: seq<Pair>, u: nat, v: nat) {
    match rule
    case AsWritten => AcceptsAsWritten(cfg, n, E, u, v)
    case Intended => AcceptsIntended(cfg, n, E, u, v)
  }

  // ---------------------------------------------------------------------------
  // The sampling loop
  // ---------------------------------------------------------------------------

  /**
   * The while(true) loop of lines 51-99 over the given candidates, with E accepted so
   * far: a candidate outside the countOfNodes x countOfNodes matrix throws; a rejected
   * one is skipped; an accepted one is appended, and the loop ends once the list holds
   * countOfEdges pairs.
   */
  function Sample(rule: Rule, cfg: Config, n: nat, count: int, E: seq<Pair>, candidates: seq<(int, int)>)
    : (r: Result<seq<Pair>>)
    ensures r.Err? ==> r.error == Exhausted || r.error == IndexOutOfRange
    ensures r.Ok? ==> |E| < |r.value| == count && |r.value| <= |E| + |candidates|
    decreases |candidates|
  {
    if |candidates| == 0 then Err(Exhausted)
    else
      var (u, v) := candidates[0];
      if !(0 <= u < n && 0 <= v < n) then Err(IndexOutOfRange)
      else if !Accepts(rule, cfg, n, E, u, v) then Sample(rule, cfg, n, count, E, candidates[1..])
      else if |E| + 1 == count then Ok(E + [(u, v)])
      else Sample(rule, cfg, n, count, E + [(u, v)], candidates[1..])
  }

  /** Every pair of E is a node id pair accepted against the pairs accepted before it. */
  ghost predicate AcceptedInOrder(rule: Rule, cfg: Config, n: nat, E: seq<Pair>) {
    forall k :: 0 <= k < |E| ==> E[k].0 < n && E[k].1 < n && Accepts(rule, cfg, n, E[..k], E[k].0, E[k].1)
  }

  /** Appending an accepted pair of node ids keeps every pair accepted against its predecessors. */
  lemma AcceptedInOrderAppend(rule: Rule, cfg: Config, n: nat, E: seq<Pair>, u: nat, v: nat)
    requires AcceptedInOrder(rule, cfg, n, E) && u < n && v < n && Accepts(rule, cfg, n, E, u, v)
    ensures AcceptedInOrder(rule, cfg, n, E + [(u, v)])
  {
    var E' := E + [(u, v)];
    forall k | 0 <= k < |E'|
      ensures E'[k].0 < n && E'[k].1 < n && Accepts(rule, cfg, n, E'[..k], E'[k].0, E'[k].1)
    {
      if k < |E| {
        assert E'[..k] == E[..k];
      } else {
        assert E'[..k] == E;
      }
    }
  }

  /**
   * When the loop returns, its pairs extend the pairs it started with, and each is a pair
   * of node ids accepted against its predecessors.
   */
  lemma {:induction false} SampleResult(rule: Rule, cfg: Config, n: nat, count: int, E: seq<Pair>,
                                        candidates: seq<(int, int)>)
    requires AcceptedInOrder(rule, cfg, n, E)
    ensures var r := Sample(rule, cfg, n, count, E, candidates);
      r.Ok? ==> r.value[..|E|] == E && AcceptedInOrder(rule, cfg, n, r.value)
    decreases |candidates|
  {
    var r := Sample(rule, cfg, n, count, E, candidates);
    if |candidates| > 0 {
      var (u, v) := candidates[0];
      if 0 <= u < n && 0 <= v < n {
        if Accepts(rule, cfg, n, E, u, v) {
          var E' := E + [(u, v)];
          AcceptedInOrderAppend(rule, cfg, n, E, u, v);
          if |E| + 1 == count {
            assert r == Ok(E');
            assert E'[..|E|] == E;
          } else {
            assert r == Sample(rule, cfg, n, count, E', candidates[1..]);
            SampleResult(rule, cfg, n, count, E', candidates[1..]);
            if r.Ok? {
              assert r.value[..|E|] == r.value[..|E'|][..|E|];
            }
          }
        } else {
          assert r == Sample(rule, cfg, n, count, E, candidates[1..]);
          SampleResult(rule, cfg, n, count, E, candidates[1..]);
        }
      } else {
        assert r == Err(IndexOutOfRange);
      }
    } else {
      assert r == Err(Exhausted);
    }
  }

  /** Candidates drawn by Next(countOfNodes) with countOfNodes > 0 never fall off the matrix. */
  lemma {:induction false} ValidDrawsStayOnMatrix(rule: Rule, cfg: Config, n: nat, count: int, E: seq<Pair>,
                                                  candidates: seq<(int, int)>)
    requires n > 0
    requires forall k :: 0 <= k < |candidates| ==>
               IsNextDraw(0, n, candidates[k].0) && IsNextDraw(0, n, candidates[k].1)
    ensures Sample(rule, cfg, n, count, E, candidates) != Err(IndexOutOfRange)
    decreases |candidates|
  {
    if |candidates| > 0 {
      var (u, v) := candidates[0];
      assert 0 <= u < n && 0 <= v < n;
      if Accepts(rule, cfg, n, E, u, v) {
        if |E| + 1 != count {
          ValidDrawsStayOnMatrix(rule, cfg, n, count, E + [(u, v)], candidates[1..]);
        }
      } else {
        ValidDrawsStayOnMatrix(rule, cfg, n, count, E, candidates[1..]);
      }
    }
  }

  // ---------------------------------------------------------------------------
  // What the accepted list guarantees
  // ---------------------------------------------------------------------------

  /**
   * Lines 56-61: no two accepted pairs are equal or reverses of each other, so a directed
   * result never holds both (u, v) and (v, u), and an undirected one no unordered pair twice.
   */
  lemma AcceptedPairsAreDistinct(cfg: Config, n: nat, E: seq<Pair>)
    requires AcceptedInOrder(AsWritten, cfg, n, E) || AcceptedInOrder(Intended, cfg, n, E)
    ensures forall i, j :: 0 <= i < j < |E| ==> E[i] != E[j] && E[i] != (E[j].1, E[j].0)
  {
    forall i, j | 0 <= i < j < |E|
      ensures E[i] != E[j] && E[i] != (E[j].1, E[j].0)
    {
      assert E[i] == E[..j][i];
      assert E[i] in E[..j];
    }
  }

  /**
   * Lines 64-65 and 80 as written: in directional mode, when (u, v) was accepted at most
   * maxInEdges accepted pairs ended at u and at most maxOutEdges started at v, and the
   * column counts of u and v were at most maxEgdesAboveNode.
   */
  lemma AsWrittenCountsAtAcceptance(cfg: Config, n: nat, E: seq<Pair>, k: nat)
    requires AcceptedInOrder(AsWritten, cfg, n, E) && k < |E|
    ensures cfg.directional ==>
              CountEndingAt(E[..k], E[k].0) <= cfg.maxInEdges as int
              && CountStartingAt(E[..k], E[k].1) <= cfg.maxOutEdges as int
    ensures ColumnCount(E[..k], cfg.directional, n, E[k].0) <= cfg.maxEgdesAboveNode as int
    ensures ColumnCount(E[..k], cfg.directional, n, E[k].1) <= cfg.maxEgdesAboveNode as int
  {
    assert Accepts(AsWritten, cfg, n, E[..k], E[k].0, E[k].1);
  }

  /**
   * Accepting (u, v) sets matrix[u, v] and, when undirected, matrix[v, u]: only the
   * column of v, and of u when undirected, can grow, and by one row at most.
   */
  lemma {:induction false} ColumnCountAfterAccept(E: seq<Pair>, d: bool, rows: nat, u: nat, v: nat, col: nat)
    ensures ColumnCount(E + [(u, v)], d, rows, col) >= ColumnCount(E, d, rows, col)
    ensures ColumnCount(E + [(u, v)], d, rows, col)
            <= ColumnCount(E, d, rows, col) + (if col == v || (!d && col == u) then 1 else 0)
  {
    if rows > 0 {
      ColumnCountAfterAccept(E, d, rows - 1, u, v, col);
      var i := rows - 1;
      if Present(E + [(u, v)], d, i, col) && !Present(E, d, i, col) {
        assert (i, col) == (u, v) || (!d && (col, i) == (u, v));
        if col != v {
          assert !d && col == u && i == v;
        }
        if rows - 1 > 0 {
          ColumnCountNoNewRow(E, d, rows - 1, u, v, col);
        }
      }
    }
  }

  /**
   * Below row `rows`, a column that the new pair touches in row i >= rows (or not at all)
   * keeps its count.
   */
  lemma {:induction false} ColumnCountNoNewRow(E: seq<Pair>, d: bool, rows: nat, u: nat, v: nat, col: nat)
    requires (col == v ==> u >= rows) && (!d && col == u ==> v >= rows)
    ensures ColumnCount(E + [(u, v)], d, rows, col) == ColumnCount(E, d, rows, col)
  {
    if rows > 0 {
      ColumnCountNoNewRow(E, d, rows - 1, u, v, col);
    }
  }

  /** The cap the as-written test keeps: maxEgdesAboveNode + 1 (and never below 0). */
  function AsWrittenColumnCap(cfg: Config): nat {
    if cfg.maxEgdesAboveNode as int + 1 > 0 then cfg.maxEgdesAboveNode as int + 1 else 0
  }

  /**
   * Lines 68-93 as written: since the checks compare the counts before insertion with a
   * strict `>`, every column count stays at most maxEgdesAboveNode + 1.
   */
  lemma {:induction false} AsWrittenColumnBound(cfg: Config, n: nat, E: seq<Pair>)
    requires AcceptedInOrder(AsWritten, cfg, n, E)
    ensures forall c :: 0 <= c < n ==> ColumnCount(E, cfg.directional, n, c) <= AsWrittenColumnCap(cfg)
  {
    if |E| > 0 {
      var E0 := E[..|E| - 1];
      var (u, v) := E[|E| - 1];
      assert E == E0 + [(u, v)];
      assert AcceptedInOrder(AsWritten, cfg, n, E0) by {
        forall k | 0 <= k < |E0|
          ensures E0[k].0 < n && E0[k].1 < n && Accepts(AsWritten, cfg, n, E0[..k], E0[k].0, E0[k].1)
        {
          assert E0[..k] == E[..k];
        }
      }
      AsWrittenColumnBound(cfg, n, E0);
      assert E[..|E| - 1] == E0;
      forall c | 0 <= c < n
        ensures ColumnCount(E, cfg.directional, n, c) <= AsWrittenColumnCap(cfg)
      {
        ColumnCountAfterAccept(E0, cfg.directional, n, u, v, c);
      }
    } else {
      forall c | 0 <= c < n
        ensures ColumnCount(E, cfg.directional, n, c) <= AsWrittenColumnCap(cfg)
      {
        ColumnCountOfNone(cfg.directional, n, c);
      }
    }
  }

  /** The cap the intended test keeps (0 when nothing can be accepted). */
  function Cap(limit: int32): nat {
    if limit > 0 then limit as nat else 0
  }

  lemma {:induction false} CountEndingAfterAccept(E: seq<Pair>, u: nat, v: nat, node: nat)
    ensures CountEndingAt(E + [(u, v)], node) == CountEndingAt(E, node) + (if v == node then 1 else 0)
  {
    assert (E + [(u, v)])[..|E|] == E;
  }

  lemma {:induction false} CountStartingAfterAccept(E: seq<Pair>, u: nat, v: nat, node: nat)
    ensures CountStartingAt(E + [(u, v)], node) == CountStartingAt(E, node) + (if u == node then 1 else 0)
  {
    assert (E + [(u, v)])[..|E|] == E;
  }

  /** Pairs accepted by the intended test respect every cap. */
  ghost predicate WithinCaps(cfg: Config, n: nat, E: seq<Pair>) {
    forall node :: 0 <= node < n ==>
      && Degree(E, node) <= Cap(cfg.maxEgdesAboveNode)
      && (cfg.directional ==>
            CountStartingAt(E, node) <= Cap(cfg.maxOutEdges) && CountEndingAt(E, node) <= Cap(cfg.maxInEdges))
  }

  /**
   * Accepting (u, v) adds one edge to u and one to v (two to u for a self-loop), one
   * outgoing edge to u and one incoming edge to v; every other node keeps its counts.
   */
  lemma DegreeAfterAccept(E: seq<Pair>, u: nat, v: nat, node: nat)
    ensures Degree(E + [(u, v)], node)
            == Degree(E, node) + (if u == node then 1 else 0) + (if v == node then 1 else 0)
    ensures CountStartingAt(E + [(u, v)], node) == CountStartingAt(E, node) + (if u == node then 1 else 0)
    ensures CountEndingAt(E + [(u, v)], node) == CountEndingAt(E, node) + (if v == node then 1 else 0)
  {
    CountStartingAfterAccept(E, u, v, node);
    CountEndingAfterAccept(E, u, v, node);
  }

  /**
   * With the intended test every node keeps at most maxEgdesAboveNode edges in both
   * directions together and, when directional, at most maxOutEdges outgoing and
   * maxInEdges incoming ones.
   */
  lemma {:induction false} IntendedKeepsCaps(cfg: Config, n: nat, E: seq<Pair>)
    requires AcceptedInOrder(Intended, cfg, n, E)
    ensures WithinCaps(cfg, n, E)
  {
    if |E| > 0 {
      var E0 := E[..|E| - 1];
      var (u, v) := E[|E| - 1];
      assert E == E0 + [(u, v)];
      assert AcceptedInOrder(Intended, cfg, n, E0) by {
        forall k | 0 <= k < |E0|
          ensures E0[k].0 < n && E0[k].1 < n && Accepts(Intended, cfg, n, E0[..k], E0[k].0, E0[k].1)
        {
          assert E0[..k] == E[..k];
        }
      }
      IntendedKeepsCaps(cfg, n, E0);
      assert E[..|E| - 1] == E0;
      assert AcceptsIntended(cfg, n, E0, u, v);
      forall node | 0 <= node < n
        ensures Degree(E, node) <= Cap(cfg.maxEgdesAboveNode)
        ensures cfg.directional ==>
                  CountStartingAt(E, node) <= Cap(cfg.maxOutEdges) && CountEndingAt(E, node) <= Cap(cfg.maxInEdges)
      {
        DegreeAfterAccept(E0, u, v, node);
      }
    } else {
      forall node | 0 <= node < n
        ensures Degree(E, node) == 0
      {
        assert CountStartingAt(E, node) == 0 && CountEndingAt(E, node) == 0;
      }
    }
  }

  /** Once anything is accepted by the intended test, the caps are the configured limits. */
  lemma IntendedCapsAreLimits(cfg: Config, n: nat, E: seq<Pair>)
    requires AcceptedInOrder(Intended, cfg, n, E) && |E| > 0
    ensures Cap(cfg.maxEgdesAboveNode) == cfg.maxEgdesAboveNode as int
    ensures cfg.directional ==>
              Cap(cfg.maxOutEdges) == cfg.maxOutEdges as int && Cap(cfg.maxInEdges) == cfg.maxInEdges as int
  {
    var (u, v) := E[0];
    assert AcceptsIntended(cfg, n, E[..0], u, v);
    assert E[..0] + [(u, v)] == [(u, v)];
    DegreeAfterAccept([], u, v, u);
    DegreeAfterAccept([], u, v, v);
  }

  /**
   * The loop run with the intended test returns pairs with at most maxEgdesAboveNode
   * edges at every node, counted in both directions, and, when directional, at most
   * maxOutEdges outgoing and maxInEdges incoming edges at every node.
   */
  lemma IntendedSampleRespectsCaps(cfg: Config, n: nat, count: int, candidates: seq<(int, int)>)
    requires Sample(Intended, cfg, n, count, [], candidates).Ok?
    ensures var E := Sample(Intended, cfg, n, count, [], candidates).value;
      forall node :: 0 <= node < n ==>
        && Degree(E, node) <= cfg.maxEgdesAboveNode as int
        && (cfg.directional ==>
              CountStartingAt(E, node) <= cfg.maxOutEdges as int && CountEndingAt(E, node) <= cfg.maxInEdges as int)
  {
    SampleResult(Intended, cfg, n, count, [], candidates);
    var E := Sample(Intended, cfg, n, count, [], candidates).value;
    IntendedKeepsCaps(cfg, n, E);
    IntendedCapsAreLimits(cfg, n, E);
  }

  // ---------------------------------------------------------------------------
  // GenerateGraph as a function of its draws
  // ---------------------------------------------------------------------------

  /**
   * The pairs GenerateGraph accepts, or the exception it throws, in source order: the
   * two Random.Next ranges, the matrix allocation, Enumerable.Range and its checked Sum,
   * the two guards, then the sampling loop.
   */
  function Outcome(cfg: Config, countOfNodes: int32, countOfEdges: int32, candidates: seq<(int, int)>)
    : (r: Result<seq<Pair>>)
    ensures r.Ok? ==> 0 < |r.value| == countOfEdges as int <= |candidates|
    ensures r != Err(TooManyEdges)
  {
    if cfg.minCountNode > Successor(cfg.maxCountNode) then Err(InvalidArgument)
    else if cfg.minCountEdge > Successor(cfg.maxCountEdge) then Err(InvalidArgument)
    else if countOfNodes < 0 then Err(Overflow)
    else if countOfEdges < 0 then Err(InvalidArgument)
    else if TriangularSum(countOfEdges as nat) > Int32Max then Err(Overflow)
    else if countOfEdges as int > TriangularSum(countOfEdges as nat) then Err(TooManyEdges)
    else if countOfEdges as int - 1 < cfg.maxEgdesAboveNode as int then Err(TooManyEdgesAboveNode)
    else Sample(AsWritten, cfg, countOfNodes as nat, countOfEdges as int, [], candidates)
  }

  /**
   * Past the argument checks, GenerateGraph throws OverflowException exactly when
   * countOfEdges >= 65536, and otherwise "too many egdes above node" exactly when
   * countOfEdges - 1 < maxEgdesAboveNode.
   */
  lemma GuardsThrowExactly(cfg: Config, countOfNodes: int32, countOfEdges: int32, candidates: seq<(int, int)>)
    requires cfg.minCountNode <= Successor(cfg.maxCountNode) && cfg.minCountEdge <= Successor(cfg.maxCountEdge)
    requires countOfNodes >= 0 && countOfEdges >= 0
    ensures var r := Outcome(cfg, countOfNodes, countOfEdges, candidates);
      && (r == Err(Overflow) <==> countOfEdges as int >= 65536)
      && (countOfEdges as int < 65536 ==>
            (r == Err(TooManyEdgesAboveNode) <==> countOfEdges as int - 1 < cfg.maxEgdesAboveNode as int))
  {
    SumOverflowsExactlyFrom(countOfEdges as nat);
    if countOfEdges as int - 1 >= cfg.maxEgdesAboveNode as int {
      SampleResult(AsWritten, cfg, countOfNodes as nat, countOfEdges as int, [], candidates);
    }
  }

  /**
   * A successful GenerateGraph accepted exactly countOfEdges pairs of node ids, each
   * passing the test of lines 56-82 against the pairs before it; no unordered pair twice;
   * every column count at most maxEgdesAboveNode + 1.
   */
  lemma OutcomeFacts(cfg: Config, countOfNodes: int32, countOfEdges: int32, candidates: seq<(int, int)>)
    requires Outcome(cfg, countOfNodes, countOfEdges, candidates).Ok?
    ensures var E := Outcome(cfg, countOfNodes, countOfEdges, candidates).value;
      && countOfNodes >= 0 && 0 < |E| == countOfEdges as int
      && AcceptedInOrder(AsWritten, cfg, countOfNodes as nat, E)
      && (forall i, j :: 0 <= i < j < |E| ==> E[i] != E[j] && E[i] != (E[j].1, E[j].0))
      && ColumnsAtMost(E, cfg.directional, countOfNodes as nat, cfg.maxEgdesAboveNode as int + 1)
  {
    var n := countOfNodes as nat;
    SampleResult(AsWritten, cfg, n, countOfEdges as int, [], candidates);
    var E := Outcome(cfg, countOfNodes, countOfEdges, candidates).value;
    AcceptedPairsAreDistinct(cfg, n, E);
    AsWrittenColumnBound(cfg, n, E);
    assert cfg.maxEgdesAboveNode as int <= countOfEdges as int - 1;
  }

  // ---------------------------------------------------------------------------
  // The graph built from the accepted pairs
  // ---------------------------------------------------------------------------

  /** Lines 101-106: Item1, Item2 of the first pair, then of the second, and so on. */
  function Interleave(E: seq<Pair>): (l: seq<nat>)
    ensures |l| == 2 * |E|
    ensures forall k :: 0 <= k < |E| ==> l[2 * k] == E[k].0 && l[2 * k + 1] == E[k].1
  {
    if |E| == 0 then []
    else
      var rest := Interleave(E[1..]);
      assert forall k :: 1 <= k < |E| ==> rest[2 * (k - 1)] == E[k].0 && rest[2 * (k - 1) + 1] == E[k].1;
      [E[0].0, E[0].1] + rest
  }

  /** Counting from the front: the first pair, then the others. */
  lemma {:induction false} CountsOfFront(p: Pair, E: seq<Pair>, node: nat)
    ensures CountStartingAt([p] + E, node) == (if p.0 == node then 1 else 0) + CountStartingAt(E, node)
    ensures CountEndingAt([p] + E, node) == (if p.1 == node then 1 else 0) + CountEndingAt(E, node)
    decreases |E|
  {
    if |E| > 0 {
      var E0 := E[..|E| - 1];
      assert ([p] + E)[..|[p] + E| - 1] == [p] + E0;
      CountsOfFront(p, E0, node);
    } else {
      assert [p] + E == [p];
    }
  }

  /**
   * Replaying the interleaved pairs registers, with each node, one edge per pair starting
   * there and, when undirected, one more per pair ending there.
   */
  lemma {:induction false} ReplayRegistrationsAt(directional: bool, s: Structure, E: seq<Pair>, k: nat)
    requires WellFormed(s) && IdsBelow(Interleave(E), |s.incident|) && k < |s.incident|
    ensures |Replay(directional, s, Interleave(E)).incident[k]|
            == |s.incident[k]| + CountStartingAt(E, k) + (if directional then 0 else CountEndingAt(E, k))
    decreases |E|
  {
    if |E| > 0 {
      var l := Interleave(E);
      assert l == [E[0].0, E[0].1] + Interleave(E[1..]);
      assert l[2..] == Interleave(E[1..]);
      var (u, v) := E[0];
      var s' := Connect(directional, s, u, v);
      assert Replay(directional, s, l) == Replay(directional, s', Interleave(E[1..]));
      ConnectRegistrationsAt(directional, s, u, v, k);
      ReplayRegistrationsAt(directional, s', E[1..], k);
      assert E == [(u, v)] + E[1..];
      CountsOfFront((u, v), E[1..], k);
      assert CountStartingAt(E, k) == (if u == k then 1 else 0) + CountStartingAt(E[1..], k);
      assert CountEndingAt(E, k) == (if v == k then 1 else 0) + CountEndingAt(E[1..], k);
    } else {
      assert CountStartingAt(E, k) == 0 && CountEndingAt(E, k) == 0;
    }
  }

  /** One connect (u, v) registers the new edge with u and, when undirected, with v. */
  lemma ConnectRegistrationsAt(directional: bool, s: Structure, u: nat, v: nat, k: nat)
    requires WellFormed(s) && u < |s.incident| && v < |s.incident| && k < |s.incident|
    ensures |Connect(directional, s, u, v).incident[k]|
            == |s.incident[k]| + (if u == k then 1 else 0) + (if !directional && v == k then 1 else 0)
  {
  }

  /** Every id of the interleaved pairs is below n, and so is their maximum. */
  lemma InterleaveBelow(E: seq<Pair>, n: nat)
    requires |E| > 0 && forall k :: 0 <= k < |E| ==> E[k].0 < n && E[k].1 < n
    ensures IdsBelow(Interleave(E), n) && Max(Interleave(E)) < n
  {
    var l := Interleave(E);
    forall t | 0 <= t < |l|
      ensures l[t] < n
    {
      var k := t / 2;
      assert t == 2 * k || t == 2 * k + 1;
      assert 0 <= k < |E|;
      assert l[2 * k] == E[k].0 && l[2 * k + 1] == E[k].1;
    }
  }

  /**
   * In the graph MakeGraph builds from accepted pairs, node k's edge list holds one entry
   * per pair starting at k and, when undirected, one more per pair ending at k: when
   * undirected its length is the node's Degree, when directional its out-degree.
   */
  lemma BuiltRegistrations(directional: bool, E: seq<Pair>, k: nat)
    requires |E| > 0 && k <= Max(Interleave(E))
    ensures var s := Build(directional, Interleave(E));
      |s.incident[k]| == CountStartingAt(E, k) + (if directional then 0 else CountEndingAt(E, k))
  {
    var l := Interleave(E);
    InterleaveBelow(E, Max(l) + 1);
    ReplayRegistrationsAt(directional, Empty(Max(l) + 1), E, k);
  }

  /**
   * The graph built from pairs the intended test accepted has at most maxEgdesAboveNode
   * edges registered with each node and, when directional, at most maxOutEdges.
   */
  lemma IntendedGraphRespectsCaps(cfg: Config, n: nat, count: int, candidates: seq<(int, int)>)
    requires Sample(Intended, cfg, n, count, [], candidates).Ok?
    ensures var E := Sample(Intended, cfg, n, count, [], candidates).value;
      && |E| > 0
      && var s := Build(cfg.directional, Interleave(E));
      && |s.incident| <= n
      && forall k :: 0 <= k < |s.incident| ==>
           && |IncidentNodes(s, k)| <= cfg.maxEgdesAboveNode as int
           && (cfg.directional ==> |IncidentNodes(s, k)| <= cfg.maxOutEdges as int)
  {
    SampleResult(Intended, cfg, n, count, [], candidates);
    IntendedSampleRespectsCaps(cfg, n, count, candidates);
    var E := Sample(Intended, cfg, n, count, [], candidates).value;
    InterleaveBelow(E, n);
    var s := Build(cfg.directional, Interleave(E));
    forall k | 0 <= k < |s.incident|
      ensures |IncidentNodes(s, k)| <= cfg.maxEgdesAboveNode as int
      ensures cfg.directional ==> |IncidentNodes(s, k)| <= cfg.maxOutEdges as int
    {
      BuiltRegistrations(cfg.directional, E, k);
    }
  }

  // ---------------------------------------------------------------------------
  // The imperative code
  // ---------------------------------------------------------------------------

  /** The int[,] matrix holds a nonzero cell exactly where E says a pair is present. */
  ghost predicate Mirrors(matrix: array2<int>, E: seq<Pair>, d: bool)
    reads matrix
  {
    forall a, b :: 0 <= a < matrix.Length0 && 0 <= b < matrix.Length1 ==>
      (matrix[a, b] != 0 <==> Present(E, d, a, b))
  }

  /** Lines 68-77: the nonzero cells in the columns of u and of v. */
  method ColumnCounts(matrix: array2<int>, u: nat, v: nat, ghost E: seq<Pair>, ghost d: bool)
    returns (countFirstNode: nat, countSecondNode: nat)
    requires matrix.Length0 == matrix.Length1 && u < matrix.Length0 && v < matrix.Length0
    requires Mirrors(matrix, E, d)
    ensures countFirstNode == ColumnCount(E, d, matrix.Length0, u)
    ensures countSecondNode == ColumnCount(E, d, matrix.Length0, v)
  {
    countFirstNode, countSecondNode := 0, 0;
    for i := 0 to matrix.Length0
      invariant countFirstNode == ColumnCount(E, d, i, u)
      invariant countSecondNode == ColumnCount(E, d, i, v)
    {
      if matrix[i, u] != 0 {
        countFirstNode := countFirstNode + 1;
      }
      if matrix[i, v] != 0 {
        countSecondNode := countSecondNode + 1;
      }
    }
  }

  /** Lines 85-93: matrix[u, v] := 1 and, when undirected, matrix[v, u] := 1. */
  method EnterPair(matrix: array2<int>, u: nat, v: nat, ghost E: seq<Pair>, d: bool)
    requires matrix.Length0 == matrix.Length1 && u < matrix.Length0 && v < matrix.Length0
    requires Mirrors(matrix, E, d)
    modifies matrix
    ensures Mirrors(matrix, E + [(u, v)], d)
  {
    if d {
      matrix[u, v] := 1;
    } else {
      matrix[u, v] := 1;
      matrix[v, u] := 1;
    }
  }

  /**
   * Lines 35-36 and 51-99: the matrix and the list start empty; every candidate is
   * tested against the matrix and the list, and an accepted one is entered in both.
   */
  method SampleEdges(cfg: Config, countOfNodes: nat, countOfEdges: int, candidates: seq<(int, int)>)
    returns (r: Result<seq<Pair>>)
    ensures r == Sample(AsWritten, cfg, countOfNodes, countOfEdges, [], candidates)
  {
    var d := cfg.directional;
    var n := countOfNodes;
    var matrix := new int[n, n]((_, _) => 0);
    var edges: seq<Pair> := [];
    var i := 0;
    while i < |candidates|
      invariant 0 <= i <= |candidates|
      invariant matrix.Length0 == n && matrix.Length1 == n
      invariant Mirrors(matrix, edges, d)
      invariant Sample(AsWritten, cfg, n, countOfEdges, [], candidates)
                == Sample(AsWritten, cfg, n, countOfEdges, edges, candidates[i..])
    {
      var (u, v) := candidates[i];
      assert candidates[i..][1..] == candidates[i + 1..];
      if !(0 <= u < n && 0 <= v < n) {
        return Err(IndexOutOfRange);
      }
      if d && matrix[v, u] != 0 {
        i := i + 1;
        continue;
      }
      if matrix[u, v] != 0 || matrix[v, u] != 0 {
        i := i + 1;
        continue;
      }
      var inEdges := CountEndingAt(edges, u);
      var outEdges := CountStartingAt(edges, v);
      var countFirstNode, countSecondNode := ColumnCounts(matrix, u, v, edges, d);
      if (d && (outEdges > cfg.maxOutEdges as int || inEdges > cfg.maxInEdges as int))
         || countFirstNode > cfg.maxEgdesAboveNode as int || countSecondNode > cfg.maxEgdesAboveNode as int
      {
        i := i + 1;
        continue;
      }
      assert AcceptsAsWritten(cfg, n, edges, u, v);
      EnterPair(matrix, u, v, edges, d);
      edges := edges + [(u, v)];
      if |edges| == countOfEdges {
        return Ok(edges);
      }
      i := i + 1;
    }
    return Err(Exhausted);
  }

  /** Lines 101-106: the loop that flattens the accepted pairs into nodeList. */
  method FlattenPairs(E: seq<Pair>) returns (nodeList: seq<nat>)
    ensures nodeList == Interleave(E)
  {
    nodeList := [];
    for k := 0 to |E|
      invariant |nodeList| == 2 * k
      invariant forall j :: 0 <= j < k ==> nodeList[2 * j] == E[j].0 && nodeList[2 * j + 1] == E[j].1
    {
      nodeList := nodeList + [E[k].0];
      nodeList := nodeList + [E[k].1];
    }
    var l := Interleave(E);
    forall t | 0 <= t < |l|
      ensures nodeList[t] == l[t]
    {
      assert nodeList[2 * (t / 2)] == l[2 * (t / 2)] && nodeList[2 * (t / 2) + 1] == l[2 * (t / 2) + 1];
    }
  }

  /** Enumerable.Range(1, count).Sum(): the additions are checked, so the sum throws once it leaves Int32. */
  method CheckedRangeSum(count: nat) returns (r: Result<nat>)
    ensures r.Ok? <==> TriangularSum(count) <= Int32Max
    ensures r.Ok? ==> r.value == TriangularSum(count)
    ensures r.Err? ==> r.error == Overflow
  {
    var sum := 0;
    for k := 1 to count + 1
      invariant sum == TriangularSum(k - 1) <= Int32Max
    {
      sum := sum + k;
      if sum > Int32Max {
        SumOverflowsExactlyFrom(k);
        SumOverflowsExactlyFrom(count);
        return Err(Overflow);
      }
    }
    return Ok(sum);
  }

  /**
   * Lines 101-108: the graph MakeGraph builds from the flattened accepted pairs: max id + 1
   * nodes (at most countOfNodes), the k-th edge the k-th pair, and, when undirected,
   * every edge registered with both its endpoints.
   */
  method GraphOfPairs(directional: bool, countOfNodes: nat, E: seq<Pair>) returns (graph: Graph)
    requires |E| > 0 && forall k :: 0 <= k < |E| ==> E[k].0 < countOfNodes && E[k].1 < countOfNodes
    ensures fresh(graph) && graph.Valid()
    ensures graph.Value() == Build(directional, Interleave(E))
    ensures graph.Length == Max(Interleave(E)) + 1 <= countOfNodes
    ensures |graph.edges| == |E| && forall k :: 0 <= k < |E| ==> graph.edges[k] == Edge(E[k].0, E[k].1)
    ensures !directional ==> AllShared(graph.Value())
  {
    var nodeList := FlattenPairs(E);
    graph := Graph.MakeGraph(directional, nodeList);
    BuildEdges(directional, nodeList);
    InterleaveBelow(E, countOfNodes);
    if !directional {
      BuildShared(nodeList);
    }
  }

  /**
   * Generator.GenerateGraph with its random draws supplied: throws as Outcome says, and
   * otherwise returns the graph MakeGraph builds from the accepted pairs: max id + 1 nodes
   * (at most countOfNodes), the k-th edge the k-th accepted pair, registered with both
   * endpoints when undirected.
   */
  method GenerateGraph(cfg: Config, countOfNodes: int32, countOfEdges: int32, candidates: seq<(int, int)>)
    returns (r: Result<Graph>)
    ensures var o := Outcome(cfg, countOfNodes, countOfEdges, candidates);
      && (r.Err? <==> o.Err?)
      && (r.Err? ==> r.error == o.error)
      && (r.Ok? ==>
            && fresh(r.value) && r.value.Valid()
            && |o.value| > 0
            && r.value.Value() == Build(cfg.directional, Interleave(o.value))
            && r.value.Length == Max(Interleave(o.value)) + 1 <= countOfNodes as int
            && |r.value.edges| == |o.value|
            && (forall k :: 0 <= k < |o.value| ==> r.value.edges[k] == Edge(o.value[k].0, o.value[k].1))
            && (!cfg.directional ==> AllShared(r.value.Value())))
  {
    if cfg.minCountNode > Successor(cfg.maxCountNode) || cfg.minCountEdge > Successor(cfg.maxCountEdge) {
      return Err(InvalidArgument);
    }
    if countOfNodes < 0 {
      return Err(Overflow);
    }
    if countOfEdges < 0 {
      return Err(InvalidArgument);
    }
    var e := countOfEdges as nat;
    var sum := CheckedRangeSum(e);
    if sum.Err? {
      return Err(sum.error);
    }
    if e > sum.value {
      return Err(TooManyEdges);
    }
    if e - 1 < cfg.maxEgdesAboveNode as int {
      return Err(TooManyEdgesAboveNode);
    }
    var sampled := SampleEdges(cfg, countOfNodes as nat, e, candidates);
    if sampled.Err? {
      return Err(sampled.error);
    }
    OutcomeFacts(cfg, countOfNodes, countOfEdges, candidates);
    var graph := GraphOfPairs(cfg.directional, countOfNodes as nat, sampled.value);
    return Ok(graph);
  }

  // ---------------------------------------------------------------------------
  // Inputs on which the code as written breaks its parameters' promises
  // ---------------------------------------------------------------------------

  /**
   * Undirected, 4 nodes, 3 edges, maxEgdesAboveNode = 2: the draws (0, 1), (0, 2), (0, 3)
   * are all accepted, since node 0's column count is 2 (not above 2) before the third,
   * and node 0 ends with 3 edges.
   */
  lemma ColumnCapExceededExample()
    ensures var cfg := Config(4, 4, 3, 3, 2, false, 2, 2);
      var E := [(0, 1), (0, 2), (0, 3)];
      && Outcome(cfg, 4, 3, [(0, 1), (0, 2), (0, 3)]) == Ok(E)
      && ColumnCount(E, false, 4, 0) == 3 > cfg.maxEgdesAboveNode as int
  {
    assert TriangularSum(3) == 6;
    ColumnCapSample();
    assert ColumnCount([(0, 1), (0, 2), (0, 3)], false, 4, 0) == 3;
  }

  /** The sampling loop of ColumnCapExceededExample accepts all three draws. */
  lemma ColumnCapSample()
    ensures Sample(AsWritten, Config(4, 4, 3, 3, 2, false, 2, 2), 4, 3, [], [(0, 1), (0, 2), (0, 3)])
            == Ok([(0, 1), (0, 2), (0, 3)])
  {
    var c: seq<(int, int)> := [(0, 1), (0, 2), (0, 3)];
    assert c[1..] == [(0, 2), (0, 3)] && c[2..] == [(0, 3)];
    ColumnCapFirstDraw();
    ColumnCapSecondDraw();
    ColumnCapThirdDraw();
  }

  lemma ColumnCapFirstDraw()
    ensures var cfg := Config(4, 4, 3, 3, 2, false, 2, 2);
      Sample(AsWritten, cfg, 4, 3, [], [(0, 1), (0, 2), (0, 3)])
      == Sample(AsWritten, cfg, 4, 3, [(0, 1)], [(0, 2), (0, 3)])
  {
    var cfg := Config(4, 4, 3, 3, 2, false, 2, 2);
    var c: seq<(int, int)> := [(0, 1), (0, 2), (0, 3)];
    var E0: seq<Pair> := [];
    ColumnCountOfNone(false, 4, 0);
    ColumnCountOfNone(false, 4, 1);
    assert AcceptsAsWritten(cfg, 4, E0, 0, 1);
    assert E0 + [(0, 1)] == [(0, 1)];
    assert c[1..] == [(0, 2), (0, 3)];
  }

  lemma ColumnCapSecondDraw()
    ensures var cfg := Config(4, 4, 3, 3, 2, false, 2, 2);
      Sample(AsWritten, cfg, 4, 3, [(0, 1)], [(0, 2), (0, 3)])
      == Sample(AsWritten, cfg, 4, 3, [(0, 1), (0, 2)], [(0, 3)])
  {
    var E1: seq<Pair> := [(0, 1)];
    var c: seq<(int, int)> := [(0, 2), (0, 3)];
    assert ColumnCount(E1, false, 4, 0) == 1;
    assert ColumnCount(E1, false, 4, 2) == 0;
    assert E1 + [(0, 2)] == [(0, 1), (0, 2)];
    assert c[1..] == [(0, 3)];
  }

  lemma ColumnCapThirdDraw()
    ensures var cfg := Config(4, 4, 3, 3, 2, false, 2, 2);
      Sample(AsWritten, cfg, 4, 3, [(0, 1), (0, 2)], [(0, 3)]) == Ok([(0, 1), (0, 2), (0, 3)])
  {
    var E2: seq<Pair> := [(0, 1), (0, 2)];
    assert ColumnCount(E2, false, 4, 0) == 2;
    assert ColumnCount(E2, false, 4, 3) == 0;
    assert E2 + [(0, 3)] == [(0, 1), (0, 2), (0, 3)];
  }

  /**
   * Directed, maxOutEdges = maxInEdges = 0: the draws (0, 1), (0, 2) are both accepted,
   * because the code counts the pairs ending at the SOURCE and starting at the TARGET;
   * node 0 ends with 2 outgoing edges.
   */
  lemma InOutCountsSwappedExample()
    ensures var cfg := Config(3, 3, 2, 2, 1, true, 0, 0);
      var E := [(0, 1), (0, 2)];
      && Outcome(cfg, 3, 2, [(0, 1), (0, 2)]) == Ok(E)
      && CountStartingAt(E, 0) == 2 > cfg.maxOutEdges as int
  {
    var cfg := Config(3, 3, 2, 2, 1, true, 0, 0);
    var c: seq<(int, int)> := [(0, 1), (0, 2)];
    var E1: seq<Pair> := [(0, 1)];
    var E2: seq<Pair> := [(0, 1), (0, 2)];
    assert TriangularSum(2) == 3;
    ColumnCountOfNone(true, 3, 0);
    ColumnCountOfNone(true, 3, 1);
    var E0: seq<Pair> := [];
    assert AcceptsAsWritten(cfg, 3, E0, 0, 1);
    assert E0 + [(0, 1)] == E1;
    assert Sample(AsWritten, cfg, 3, 2, E0, c) == Sample(AsWritten, cfg, 3, 2, E1, c[1..]);
    assert ColumnCount(E1, true, 3, 0) == 0;
    assert ColumnCount(E1, true, 3, 2) == 0;
    assert CountEndingAt(E1, 0) == 0 && CountStartingAt(E1, 2) == 0;
    assert E1 + [(0, 2)] == E2;
    assert Sample(AsWritten, cfg, 3, 2, E1, c[1..]) == Ok(E2);
    assert E2[..1] == E1;
    assert CountStartingAt(E2, 0) == 2;
  }
}
