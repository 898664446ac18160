/**
 * scripts/process_graph_data.py: drop the edges whose endpoints are not
 * both known nodes, drop the nodes no kept edge touches, then weigh each
 * kept edge by the sum of the absolute latitude and longitude differences
 * and scale that weight to an integer.
 */
module GraphCleaning {
  import opened Wrappers

  /** A row of nodes.csv as pandas reads it. */
  datatype NodeRow = NodeRow(id: int, lat: real, lon: real, trafficSignals: bool, stop: bool)

  /** A row of edges.csv as pandas reads it. */
  datatype EdgeRow = EdgeRow(id: int, name: string, node1: int, node2: int)

  /** A row of processed_edges.csv: the edge with its `weight` and `normalized_weight` columns. */
  datatype WeightedEdge = WeightedEdge(edge: EdgeRow, weight: real, normalizedWeight: int)

  // ---------------------------------------------------------------------
  // Boolean-mask filtering
  // ---------------------------------------------------------------------

  /** `df[mask]`: the rows for which `keep` holds, in their input order. */
  function Filter<T(==,!new)>(xs: seq<T>, keep: T -> bool): (r: seq<T>)
    ensures |r| <= |xs|
    ensures forall x :: x in r <==> x in xs && keep(x)
    decreases |xs|
  {
    if xs == [] then []
    else
      var rest := Filter(xs[..|xs| - 1], keep);
      assert forall x :: x in xs <==> x in xs[..|xs| - 1] || x == xs[|xs| - 1];
      if keep(xs[|xs| - 1]) then rest + [xs[|xs| - 1]] else rest
  }

  /** Filtering keeps every copy of a row satisfying the mask and no copy of any other row. */
  lemma {:induction false} FilterCounts<T(!new)>(xs: seq<T>, keep: T -> bool)
    ensures forall x :: multiset(Filter(xs, keep))[x] == if keep(x) then multiset(xs)[x] else 0
    decreases |xs|
  {
    if xs != [] {
      FilterCounts(xs[..|xs| - 1], keep);
      assert xs == xs[..|xs| - 1] + [xs[|xs| - 1]];
    }
  }

  /** `a` is `b` with some rows removed and the rest in the same order. */
  predicate IsSubsequence<T(==)>(a: seq<T>, b: seq<T>)
    decreases |b|
  {
    if a == [] then true
    else if b == [] then false
    else if a[|a| - 1] == b[|b| - 1] then IsSubsequence(a[..|a| - 1], b[..|b| - 1])
    else IsSubsequence(a, b[..|b| - 1])
  }

  /** Filtering only removes rows; it never reorders them. */
  lemma {:induction false} FilterSubsequence<T(!new)>(xs: seq<T>, keep: T -> bool)
    ensures IsSubsequence(Filter(xs, keep), xs)
    decreases |xs|
  {
    if xs != [] {
      var init := xs[..|xs| - 1];
      FilterSubsequence(init, keep);
      if keep(xs[|xs| - 1]) {
        var r := Filter(xs, keep);
        assert r[..|r| - 1] == Filter(init, keep);
      } else {
        SubsequenceOfLonger(Filter(init, keep), init, xs[|xs| - 1]);
      }
    }
  }

  /** A subsequence of `b` is a subsequence of `b` with a row appended. */
  lemma {:induction false} SubsequenceOfLonger<T>(a: seq<T>, b: seq<T>, x: T)
    requires IsSubsequence(a, b)
    ensures IsSubsequence(a, b + [x])
    decreases |b|, 1
  {
    if a != [] {
      assert (b + [x])[..|b|] == b;
      if a[|a| - 1] == x {
        SubsequenceDropLast(a, b);
      }
    }
  }

  /** Dropping the last row of a subsequence leaves a subsequence. */
  lemma {:induction false} SubsequenceDropLast<T>(a: seq<T>, b: seq<T>)
    requires a != [] && IsSubsequence(a, b)
    ensures IsSubsequence(a[..|a| - 1], b)
    decreases |b|, 0
  {
    var a', b' := a[..|a| - 1], b[..|b| - 1];
    if a[|a| - 1] == b[|b| - 1] {
      if a' != [] && a'[|a'| - 1] == b[|b| - 1] {
        SubsequenceDropLast(a', b');
      }
    } else {
      SubsequenceDropLast(a, b');
      SubsequenceOfLonger(a', b', b[|b| - 1]);
      assert b' + [b[|b| - 1]] == b;
    }
  }

  /** A mask that holds on every row keeps the whole frame. */
  lemma {:induction false} FilterKeepsAll<T(!new)>(xs: seq<T>, keep: T -> bool)
    requires forall x :: x in xs ==> keep(x)
    ensures Filter(xs, keep) == xs
    decreases |xs|
  {
    if xs != [] {
      FilterKeepsAll(xs[..|xs| - 1], keep);
      assert xs[..|xs| - 1] + [xs[|xs| - 1]] == xs;
    }
  }

  // ---------------------------------------------------------------------
  // The two filters
  // ---------------------------------------------------------------------

  /** `set(nodes_df['id'])`. */
  function NodeIds(nodes: seq<NodeRow>): set<int> {
    set n | n in nodes :: n.id
  }

  /** `set(df['node1']).union(set(df['node2']))`. */
  function EndpointIds(edges: seq<EdgeRow>): set<int> {
    (set e | e in edges :: e.node1) + (set e | e in edges :: e.node2)
  }

  /** Both endpoints of `e` are in `ids`. */
  predicate Resolves(e: EdgeRow, ids: set<int>) {
    e.node1 in ids && e.node2 in ids
  }

  /** `n` is an endpoint of some edge in `edges`. */
  predicate Touched(n: NodeRow, edges: seq<EdgeRow>) {
    exists e :: e in edges && (e.node1 == n.id || e.node2 == n.id)
  }

  /**
   * Lines 10-19: the kept edges are the input edges whose two endpoints are
   * input node ids, the kept nodes are the input nodes some kept edge
   * touches, and so every kept edge joins two kept nodes.
   */
  function Clean(nodes: seq<NodeRow>, edges: seq<EdgeRow>): (r: (seq<NodeRow>, seq<EdgeRow>))
    ensures forall e :: e in r.1 <==> e in edges && Resolves(e, NodeIds(nodes))
    ensures forall n :: n in r.0 <==> n in nodes && Touched(n, r.1)
    ensures forall e :: e in r.1 ==> Resolves(e, NodeIds(r.0))
  {
    var ids := NodeIds(nodes);
    var keptEdges := Filter(edges, (e: EdgeRow) => Resolves(e, ids));
    var used := EndpointIds(keptEdges);
    var keptNodes := Filter(nodes, (n: NodeRow) => n.id in used);
    forall n | n in keptNodes ensures Touched(n, keptEdges) {
      var e :| e in keptEdges && (e.node1 == n.id || e.node2 == n.id);
    }
    forall e | e in keptEdges ensures Resolves(e, NodeIds(keptNodes)) {
      var m :| m in nodes && m.id == e.node1;
      var m' :| m' in nodes && m'.id == e.node2;
      assert m in keptNodes && m' in keptNodes;
    }
    (keptNodes, keptEdges)
  }

  /** Cleaning keeps the surviving rows of both frames in their input order. */
  lemma CleanKeepsOrder(nodes: seq<NodeRow>, edges: seq<EdgeRow>)
    ensures IsSubsequence(Clean(nodes, edges).0, nodes)
    ensures IsSubsequence(Clean(nodes, edges).1, edges)
  {
    var ids := NodeIds(nodes);
    var keptEdges := Filter(edges, (e: EdgeRow) => Resolves(e, ids));
    FilterSubsequence(edges, (e: EdgeRow) => Resolves(e, ids));
    FilterSubsequence(nodes, (n: NodeRow) => n.id in EndpointIds(keptEdges));
  }

  /** Cleaning the cleaned frames changes nothing. */
  lemma CleanIdempotent(nodes: seq<NodeRow>, edges: seq<EdgeRow>)
    ensures Clean(Clean(nodes, edges).0, Clean(nodes, edges).1) == Clean(nodes, edges)
  {
    var (ns, es) := Clean(nodes, edges);
    var ids := NodeIds(ns);
    FilterKeepsAll(es, (e: EdgeRow) => Resolves(e, ids));
    var used := EndpointIds(es);
    forall n | n in ns ensures n.id in used {
      var e :| e in es && (e.node1 == n.id || e.node2 == n.id);
    }
    FilterKeepsAll(ns, (n: NodeRow) => n.id in used);
  }

  // ---------------------------------------------------------------------
  // Weights
  // ---------------------------------------------------------------------

  /** `df.loc[df['id'] == id]` followed by `.values[0]`; `None` is the `IndexError` of an empty selection. */
  function FirstWithId(nodes: seq<NodeRow>, id: int): (r: Option<NodeRow>)
    ensures r.Some? ==> r.value in nodes && r.value.id == id
    ensures r.None? <==> id !in NodeIds(nodes)
    decreases |nodes|
  {
    if nodes == [] then None
    else if nodes[0].id == id then Some(nodes[0])
    else
      assert forall n :: n in nodes ==> n == nodes[0] || n in nodes[1..];
      FirstWithId(nodes[1..], id)
  }

  /** The position of the first row with id `id`, or `|nodes|` when there is none. */
  function FirstWithIdAt(nodes: seq<NodeRow>, id: int): (r: nat)
    ensures r <= |nodes|
    ensures r < |nodes| ==> nodes[r].id == id
    ensures forall q :: 0 <= q < r ==> nodes[q].id != id
    decreases |nodes|
  {
    if nodes == [] then 0
    else if nodes[0].id == id then 0
    else 1 + FirstWithIdAt(nodes[1..], id)
  }

  /** `.values[0]` is the row at `FirstWithIdAt`: the first match, no earlier row has the id. */
  lemma {:induction false} FirstWithIdIsFirst(nodes: seq<NodeRow>, id: int)
    ensures FirstWithId(nodes, id) == if FirstWithIdAt(nodes, id) == |nodes| then None else Some(nodes[FirstWithIdAt(nodes, id)])
    decreases |nodes|
  {
    if nodes != [] && nodes[0].id != id {
      FirstWithIdIsFirst(nodes[1..], id);
    }
  }

  function Abs(x: real): real {
    if x < 0.0 then -x else x
  }

  /**
   * `calculate_weight(row)`: the sum of the absolute latitude and longitude
   * differences of the first rows with the edge's two ids; it is never
   * negative and is 0 exactly when those two rows sit at the same point.
   */
  function CalculateWeight(nodes: seq<NodeRow>, e: EdgeRow): (w: Option<real>)
    ensures w.Some? <==> Resolves(e, NodeIds(nodes))
    ensures w.Some? ==> w.value >= 0.0
    ensures w.Some? ==> (w.value == 0.0 <==>
      FirstWithId(nodes, e.node1).value.lat == FirstWithId(nodes, e.node2).value.lat &&
      FirstWithId(nodes, e.node1).value.lon == FirstWithId(nodes, e.node2).value.lon)
  {
    var node1, node2 := FirstWithId(nodes, e.node1), FirstWithId(nodes, e.node2);
    if node1.None? || node2.None? then None
    else Some(Abs(node1.value.lat - node2.value.lat) + Abs(node1.value.lon - node2.value.lon))
  }

  /** `.astype(int)` on a float: truncation towards zero. */
  function Truncate(x: real): (r: int)
    ensures x >= 0.0 ==> r >= 0 && r as real <= x < r as real + 1.0
    ensures x < 0.0 ==> r <= 0 && r as real - 1.0 < x <= r as real
  {
    if x >= 0.0 then x.Floor else -((-x).Floor)
  }

  /** `(weight * 100000).astype(int)`. */
  function NormalizedWeight(w: real): (r: int)
    ensures w >= 0.0 ==> r >= 0 && r as real <= w * 100000.0 < r as real + 1.0
  {
    Truncate(w * 100000.0)
  }

  /**
   * `apply(calculate_weight, axis=1)` over every edge, then the
   * `normalized_weight` column; `None` when some edge has an endpoint with no
   * node row, which raises out of the script.
   */
  function Weigh(nodes: seq<NodeRow>, edges: seq<EdgeRow>): (r: Option<seq<WeightedEdge>>)
    ensures r.Some? <==> forall e :: e in edges ==> Resolves(e, NodeIds(nodes))
    ensures r.Some? ==> |r.value| == |edges| && forall k :: 0 <= k < |edges| ==>
      && r.value[k].edge == edges[k]
      && Some(r.value[k].weight) == CalculateWeight(nodes, edges[k])
      && r.value[k].weight >= 0.0
      && r.value[k].normalizedWeight == NormalizedWeight(r.value[k].weight)
      && r.value[k].normalizedWeight >= 0
    decreases |edges|
  {
    if edges == [] then Some([])
    else
      var init := Weigh(nodes, edges[..|edges| - 1]);
      var last := edges[|edges| - 1];
      var w := CalculateWeight(nodes, last);
      assert forall e :: e in edges <==> e in edges[..|edges| - 1] || e == last;
      if init.None? || w.None? then None
      else Some(init.value + [WeightedEdge(last, w.value, NormalizedWeight(w.value))])
  }

  /**
   * Line 30, `filtered_edges_df['weight'] = ...apply(calculate_weight,
   * axis=1)`. On an empty frame `apply` returns the frame itself, with its
   * four columns, and assigning that to the one column `weight` raises a
   * `ValueError`: `None`. Otherwise it is `Weigh`.
   */
  function AssignWeights(nodes: seq<NodeRow>, edges: seq<EdgeRow>): (r: Option<seq<WeightedEdge>>)
    ensures r.Some? <==> edges != [] && forall e :: e in edges ==> Resolves(e, NodeIds(nodes))
  {
    if edges == [] then None else Weigh(nodes, edges)
  }

  /** The whole script: the cleaned nodes and the weighted cleaned edges, `None` when it raises. */
  function Process(nodes: seq<NodeRow>, edges: seq<EdgeRow>): Option<(seq<NodeRow>, seq<WeightedEdge>)> {
    var (ns, es) := Clean(nodes, edges);
    match AssignWeights(ns, es)
    case None => None
    case Some(ws) => Some((ns, ws))
  }

  /**
   * Because cleaning only keeps edges whose endpoints are kept nodes, the
   * weighing never meets a missing node. The script therefore fails only
   * when no edge survives cleaning, that is when no input edge has both
   * endpoints among the node ids. Otherwise it produces the cleaned nodes and
   * one weighted row per kept edge, with non-negative weights.
   */
  lemma ProcessSucceeds(nodes: seq<NodeRow>, edges: seq<EdgeRow>)
    ensures Process(nodes, edges).Some? <==> exists e :: e in edges && Resolves(e, NodeIds(nodes))
    ensures Process(nodes, edges).Some? ==> Process(nodes, edges).value.0 == Clean(nodes, edges).0
    ensures Process(nodes, edges).Some? ==> |Process(nodes, edges).value.1| == |Clean(nodes, edges).1|
    ensures Process(nodes, edges).Some? ==> forall k :: 0 <= k < |Clean(nodes, edges).1| ==>
      && Process(nodes, edges).value.1[k].edge == Clean(nodes, edges).1[k]
      && Process(nodes, edges).value.1[k].weight >= 0.0
      && Process(nodes, edges).value.1[k].normalizedWeight >= 0
  {
    var kept := Clean(nodes, edges).1;
    if kept != [] {
      assert kept[0] in kept;
    }
  }
}
