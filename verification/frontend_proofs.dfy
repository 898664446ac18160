/**
 * Properties of the frontend/server.js router model: the triangle inequality
 * after the triple loop, the next-hop invariant that makes every
 * `edges[currentNode].find(...)` succeed, and the shape of the rebuilt path.
 */
module FrontendProofs {
  import opened Wrappers
  import opened FrontendRouter
  import opened JsObject
  import opened Numerals

  // ---------------------------------------------------------------------
  // What one round of the k loop computes
  // ---------------------------------------------------------------------

  /** The value of entry (x, y) after relaxing it once through `k` against matrix `d`. */
  function Relaxed(d: map<Pair, Dist>, k: NodeId, x: NodeId, y: NodeId): Dist
    requires (x, k) in d && (k, y) in d && (x, y) in d
  {
    var through := Plus(d[(x, k)], d[(k, y)]);
    if Below(through, d[(x, y)]) then through else d[(x, y)]
  }

  /**
   * The `j` loop for `k` and `i` relaxes each entry (i, j) once against the
   * matrix it started from: while `dist[k][k]` is not negative, row `k` and
   * column `k` do not move during the round.
   */
  lemma {:induction false} RowEffect(t: Tables, k: NodeId, i: NodeId, js: seq<NodeId>, order: seq<NodeId>)
    requires Dense(t, order) && k in order && i in order && forall j :: j in js ==> j in order
    requires NonNegative(t.dist[(k, k)])
    ensures forall p :: p in t.dist ==>
      RelaxRow(t, k, i, js, order).dist[p] == if p.0 == i && p.1 in js then Relaxed(t.dist, k, i, p.1) else t.dist[p]
    decreases |js|
  {
    if js != [] {
      var init, y := js[..|js| - 1], js[|js| - 1];
      assert js == init + [y];
      RowEffect(t, k, i, init, order);
      var r0 := RelaxRow(t, k, i, init, order);
      assert r0.dist[(i, k)] == t.dist[(i, k)];
      assert r0.dist[(k, y)] == t.dist[(k, y)];
      var r := RelaxRow(t, k, i, js, order);
      assert js[..|js| - 1] == init;
      assert r == Step(r0, k, i, y);
      assert r.dist[(i, y)] == Relaxed(r0.dist, k, i, y);
      assert Relaxed(r0.dist, k, i, y) == Relaxed(t.dist, k, i, y);
      forall p | p in t.dist
        ensures r.dist[p] == if p.0 == i && p.1 in js then Relaxed(t.dist, k, i, p.1) else t.dist[p]
      {
        if p != (i, y) {
          assert r.dist[p] == r0.dist[p];
          assert p.0 == i && p.1 in js ==> p.1 in init;
        }
      }
    }
  }

  /** The `i` loop for `k`: every entry of the node square is relaxed once through `k`. */
  lemma {:induction false} RoundEffect(t: Tables, k: NodeId, srcs: seq<NodeId>, order: seq<NodeId>)
    requires Dense(t, order) && k in order && forall i :: i in srcs ==> i in order
    requires NonNegative(t.dist[(k, k)])
    ensures forall p :: p in t.dist ==>
      RelaxRound(t, k, srcs, order).dist[p]
        == if p.0 in srcs && p.1 in order then Relaxed(t.dist, k, p.0, p.1) else t.dist[p]
    decreases |srcs|
  {
    if srcs != [] {
      var init, i := srcs[..|srcs| - 1], srcs[|srcs| - 1];
      assert srcs == init + [i];
      RoundEffect(t, k, init, order);
      var r0 := RelaxRound(t, k, init, order);
      assert r0.dist[(k, k)] == t.dist[(k, k)];
      RowEffect(r0, k, i, order, order);
      var r := RelaxRound(t, k, srcs, order);
      assert srcs[..|srcs| - 1] == init;
      assert r == RelaxRow(r0, k, i, order, order);
      RoundEntries(t.dist, r0.dist, r.dist, k, i, init, order);
    }
  }

  /** The pointwise bookkeeping of one `i` step of RoundEffect, on the three matrices involved. */
  lemma RoundEntries(d: map<Pair, Dist>, d0: map<Pair, Dist>, d1: map<Pair, Dist>,
                     k: NodeId, i: NodeId, init: seq<NodeId>, order: seq<NodeId>)
    requires Square(d, order) && d0.Keys == d.Keys && d1.Keys == d.Keys
    requires k in order && i in order && forall x :: x in init ==> x in order
    requires NonNegative(d[(k, k)])
    requires forall p :: p in d ==> d0[p] == if p.0 in init && p.1 in order then Relaxed(d, k, p.0, p.1) else d[p]
    requires forall p :: p in d0 ==> d1[p] == if p.0 == i && p.1 in order then Relaxed(d0, k, i, p.1) else d0[p]
    ensures forall p :: p in d ==> d1[p] == if p.0 in init + [i] && p.1 in order then Relaxed(d, k, p.0, p.1) else d[p]
  {
    forall p | p in d
      ensures d1[p] == if p.0 in init + [i] && p.1 in order then Relaxed(d, k, p.0, p.1) else d[p]
    {
      if p.0 == i && p.1 in order {
        assert d0[(i, k)] == d[(i, k)];
        assert d0[(k, p.1)] == d[(k, p.1)];
      }
    }
  }

  // ---------------------------------------------------------------------
  // The triangle inequality
  // ---------------------------------------------------------------------

  predicate NonNegativeOn(d: map<Pair, Dist>, order: seq<NodeId>)
    requires Square(d, order)
  {
    forall u, v :: u in order && v in order ==> NonNegative(d[(u, v)])
  }

  /** `dist[i][j] <= dist[i][k] + dist[k][j]` for every node pair and every relay `k` in `ks`. */
  ghost predicate TriangleThrough(d: map<Pair, Dist>, ks: seq<NodeId>, order: seq<NodeId>)
    requires Square(d, order) && forall k :: k in ks ==> k in order
  {
    forall i, j, k :: i in order && j in order && k in ks ==> AtMost(d[(i, j)], Plus(d[(i, k)], d[(k, j)]))
  }

  /**
   * One round through `k'` keeps the inequality for an earlier relay `k`
   * and establishes it for `k'` itself; the four cases are which of the two
   * sides of `dist[i][k]` and `dist[k][j]` the round picked.
   */
  lemma TriangleCase(d: map<Pair, Dist>, k': NodeId, i: NodeId, j: NodeId, k: NodeId, order: seq<NodeId>)
    requires Square(d, order) && NonNegativeOn(d, order)
    requires k' in order && i in order && j in order && k in order
    requires k != k' ==> AtMost(d[(i, j)], Plus(d[(i, k)], d[(k, j)]))
    requires k != k' ==> AtMost(d[(k', j)], Plus(d[(k', k)], d[(k, j)]))
    requires k != k' ==> AtMost(d[(i, k')], Plus(d[(i, k)], d[(k, k')]))
    ensures AtMost(Relaxed(d, k', i, j), Plus(Relaxed(d, k', i, k), Relaxed(d, k', k, j)))
  {
    assert NonNegative(d[(k', k')]) && NonNegative(d[(k', k)]) && NonNegative(d[(k, k')]);
  }

  /** After the rounds for `ks`, entries stay non-negative and obey the inequality through every relay of `ks`. */
  lemma {:induction false} RoundsEstablishTriangle(t: Tables, ks: seq<NodeId>, order: seq<NodeId>)
    requires Dense(t, order) && NonNegativeOn(t.dist, order) && forall k :: k in ks ==> k in order
    ensures NonNegativeOn(RelaxAll(t, ks, order).dist, order)
    ensures TriangleThrough(RelaxAll(t, ks, order).dist, ks, order)
    decreases |ks|
  {
    if ks != [] {
      var init, k' := ks[..|ks| - 1], ks[|ks| - 1];
      assert ks == init + [k'];
      RoundsEstablishTriangle(t, init, order);
      var r0 := RelaxAll(t, init, order);
      var d := r0.dist;
      assert NonNegative(d[(k', k')]);
      RoundEffect(r0, k', order, order);
      var r := RelaxAll(t, ks, order);
      assert ks[..|ks| - 1] == init;
      assert r == RelaxRound(r0, k', order, order);
      RoundKeepsTriangle(d, r.dist, init, k', order);
    }
  }

  /** A round through `k'` keeps entries non-negative, keeps the inequality for the earlier relays and adds `k'`. */
  lemma RoundKeepsTriangle(d: map<Pair, Dist>, d1: map<Pair, Dist>, ks: seq<NodeId>, k': NodeId, order: seq<NodeId>)
    requires Square(d, order) && Square(d1, order) && NonNegativeOn(d, order)
    requires k' in order && forall k :: k in ks ==> k in order
    requires TriangleThrough(d, ks, order)
    requires forall u, v :: u in order && v in order ==> d1[(u, v)] == Relaxed(d, k', u, v)
    ensures NonNegativeOn(d1, order)
    ensures TriangleThrough(d1, ks + [k'], order)
  {
    forall i, j, k | i in order && j in order && k in ks + [k']
      ensures AtMost(d1[(i, j)], Plus(d1[(i, k)], d1[(k, j)]))
    {
      if k != k' {
        assert k in ks;
      }
      TriangleCase(d, k', i, j, k, order);
    }
  }

  /** Seeding non-negative weights over the initial matrices leaves every entry of the node square non-negative. */
  lemma SeededNonNegative(order: seq<NodeId>, rows: seq<Edge>)
    requires forall e :: e in rows ==> e.weight >= 0
    ensures Dense(SeedAll(InitialTables(order), order, GroupBySource(rows)), order)
    ensures NonNegativeOn(SeedAll(InitialTables(order), order, GroupBySource(rows)).dist, order)
  {
    var edges := GroupBySource(rows);
    forall u: NodeId, e: Edge | u in edges && e in edges[u] ensures e.weight >= 0 {
      GroupBySourceAt(rows, u);
      assert e in OutEdges(rows, u);
    }
    var t0 := InitialTables(order);
    assert Dense(t0, order);
    forall u, v | u in order && v in order ensures NonNegative(t0.dist[(u, v)]) {
      assert (u, v) in t0.dist;
    }
    SeedKeepsNonNegative(t0, order, edges);
  }

  lemma SeedKeepsNonNegative(t0: Tables, order: seq<NodeId>, edges: map<NodeId, seq<Edge>>)
    requires Dense(t0, order) && NonNegativeOn(t0.dist, order)
    requires forall u, e :: u in edges && e in edges[u] ==> e.weight >= 0
    ensures Dense(SeedAll(t0, order, edges), order)
    ensures NonNegativeOn(SeedAll(t0, order, edges).dist, order)
  {
    var t := SeedAll(t0, order, edges);
    forall u, v | u in order && v in order ensures (u, v) in t.dist && (u, v) in t.next && NonNegative(t.dist[(u, v)]) {
      assert (u, v) in t0.dist && (u, v) in t0.next;
      if u in edges && LastEdgeTo(edges[u], v).Some? {
        assert LastEdgeTo(edges[u], v).value in edges[u];
      }
    }
  }

  /** With non-negative integer weights, after the triple loop `dist[i][j] <= dist[i][k] + dist[k][j]` for all nodes. */
  lemma TriangleInequality(nodes: seq<Node>, rows: seq<Edge>)
    requires forall e :: e in rows ==> e.weight >= 0
    ensures forall i, j, k :: i in LoadNodes(nodes).keys && j in LoadNodes(nodes).keys && k in LoadNodes(nodes).keys ==>
      var d := ComputedTables(LoadNodes(nodes).keys, GroupBySource(rows)).dist;
      AtMost(d[(i, j)], Plus(d[(i, k)], d[(k, j)]))
  {
    var order := LoadNodes(nodes).keys;
    SeededNonNegative(order, rows);
    RoundsEstablishTriangle(SeedAll(InitialTables(order), order, GroupBySource(rows)), order, order);
  }

  // ---------------------------------------------------------------------
  // The next-hop invariant
  // ---------------------------------------------------------------------

  /**
   * Every hop stored in `next[u][v]` is a node that `edges[u]` has an edge to;
   * in a column of the node square it is itself a node, and in a column
   * outside it (an edge target with no row of its own) it is that target.
   */
  predicate HopsFollowEdges(t: Tables, edges: map<NodeId, seq<Edge>>, order: seq<NodeId>) {
    forall p :: p in t.next && t.next[p].Some? ==>
      && p.0 in edges && FindEdgeTo(edges[p.0], t.next[p].value).Some?
      && (p.1 in order ==> t.next[p].value in order)
      && (p.1 !in order ==> t.next[p].value == p.1)
  }

  lemma InitialHops(order: seq<NodeId>, edges: map<NodeId, seq<Edge>>)
    ensures HopsFollowEdges(InitialTables(order), edges, order)
  {
  }

  /** Seeding stores `next[u][v] = v` only when some edge of `edges[u]` leads to `v`. */
  lemma SeedHops(t: Tables, order: seq<NodeId>, edges: map<NodeId, seq<Edge>>)
    requires HopsFollowEdges(t, edges, order)
    ensures HopsFollowEdges(SeedAll(t, order, edges), edges, order)
  {
    var r := SeedAll(t, order, edges);
    forall p | p in r.next && r.next[p].Some?
      ensures p.0 in edges && FindEdgeTo(edges[p.0], r.next[p].value).Some?
      ensures p.1 in order ==> r.next[p].value in order
      ensures p.1 !in order ==> r.next[p].value == p.1
    {
      if p.0 in order && p.0 in edges && LastEdgeTo(edges[p.0], p.1).Some? {
        assert r.next[p] == Some(p.1);
        assert LastEdgeTo(edges[p.0], p.1).value in edges[p.0];
      } else {
        assert p in t.next && r.next[p] == t.next[p];
      }
    }
  }

  /** The `j` loop copies `next[i][k]` into row `i` only, so the invariant survives. */
  lemma {:induction false} RowHops(t: Tables, k: NodeId, i: NodeId, js: seq<NodeId>, order: seq<NodeId>, edges: map<NodeId, seq<Edge>>)
    requires Dense(t, order) && k in order && i in order && forall j :: j in js ==> j in order
    requires HopsFollowEdges(t, edges, order)
    ensures HopsFollowEdges(RelaxRow(t, k, i, js, order), edges, order)
    decreases |js|
  {
    if js != [] {
      var init := js[..|js| - 1];
      RowHops(t, k, i, init, order, edges);
      var r0 := RelaxRow(t, k, i, init, order);
      assert Dense(r0, order);
      assert RelaxRow(t, k, i, js, order) == Step(r0, k, i, js[|js| - 1]);
    }
  }

  lemma {:induction false} RoundHops(t: Tables, k: NodeId, srcs: seq<NodeId>, order: seq<NodeId>, edges: map<NodeId, seq<Edge>>)
    requires Dense(t, order) && k in order && forall i :: i in srcs ==> i in order
    requires HopsFollowEdges(t, edges, order)
    ensures HopsFollowEdges(RelaxRound(t, k, srcs, order), edges, order)
    decreases |srcs|
  {
    if srcs != [] {
      var init := srcs[..|srcs| - 1];
      RoundHops(t, k, init, order, edges);
      var r0 := RelaxRound(t, k, init, order);
      assert Dense(r0, order);
      RowHops(r0, k, srcs[|srcs| - 1], order, order, edges);
    }
  }

  lemma {:induction false} AllHops(t: Tables, ks: seq<NodeId>, order: seq<NodeId>, edges: map<NodeId, seq<Edge>>)
    requires Dense(t, order) && forall k :: k in ks ==> k in order
    requires HopsFollowEdges(t, edges, order)
    ensures HopsFollowEdges(RelaxAll(t, ks, order), edges, order)
    decreases |ks|
  {
    if ks != [] {
      var init := ks[..|ks| - 1];
      AllHops(t, init, order, edges);
      var r0 := RelaxAll(t, init, order);
      assert Dense(r0, order);
      RoundHops(r0, ks[|ks| - 1], order, order, edges);
    }
  }

  /** The matrices the handler walks satisfy the next-hop invariant. */
  lemma ComputedHops(order: seq<NodeId>, edges: map<NodeId, seq<Edge>>)
    ensures HopsFollowEdges(ComputedTables(order, edges), edges, order)
  {
    InitialHops(order, edges);
    SeedHops(InitialTables(order), order, edges);
    var s := SeedAll(InitialTables(order), order, edges);
    assert Dense(s, order);
    AllHops(s, order, order, edges);
  }

  // ---------------------------------------------------------------------
  // The walk along next
  // ---------------------------------------------------------------------

  /** Edge `s` of a walk from `cur` is an edge of the stop it leaves that leads to the stop after it. */
  predicate Linked(edges: map<NodeId, seq<Edge>>, cur: NodeId, ns: seq<NodeId>, es: seq<Option<Edge>>)
    requires |es| == |ns|
  {
    && (|es| > 0 ==> StepLinked(edges, cur, es[0], ns[0]))
    && forall s :: 0 < s < |es| ==> StepLinked(edges, ns[s - 1], es[s], ns[s])
  }

  /** `e` is an edge of `edges[from]` that leads to `to`. */
  predicate StepLinked(edges: map<NodeId, seq<Edge>>, from: NodeId, e: Option<Edge>, to: NodeId) {
    from in edges && e.Some? && e.value in edges[from] && e.value.node2 == to
  }

  /** The last stop of a walk from `cur`. */
  function LastStop(cur: NodeId, ns: seq<NodeId>): NodeId {
    if ns == [] then cur else ns[|ns| - 1]
  }

  /**
   * Under the next-hop invariant a walk that starts at a node (or at the
   * target) never raises a TypeError; every `find` it makes succeeds with an
   * edge between consecutive stops, and it stops at `end` or at a null hop.
   */
  lemma {:induction false} WalkFollowsEdges(t: Tables, edges: map<NodeId, seq<Edge>>, order: seq<NodeId>,
                                            cur: NodeId, end: NodeId, fuel: nat)
    requires HopsFollowEdges(t, edges, order)
    requires cur in order || cur == end
    ensures WalkFrom(t, edges, order, cur, end, fuel) != Crashed
    ensures match WalkFrom(t, edges, order, cur, end, fuel)
      case Walked(ns, es) =>
        && |ns| == |es| && Linked(edges, cur, ns, es)
        && (LastStop(cur, ns) == end || Falsy(Hop(t, LastStop(cur, ns), end)))
      case _ => true
    decreases fuel
  {
    if cur != end && fuel > 0 && !Falsy(Hop(t, cur, end)) {
      var v := Hop(t, cur, end).value;
      assert (cur, end) in t.next && t.next[(cur, end)] == Some(v);
      assert v in order || v == end;
      WalkFollowsEdges(t, edges, order, v, end, fuel - 1);
      var w := WalkFrom(t, edges, order, v, end, fuel - 1);
      if w.Walked? {
        var ns, es := [v] + w.nodes, [FindEdgeTo(edges[cur], v)] + w.edges;
        assert WalkFrom(t, edges, order, cur, end, fuel) == Walked(ns, es);
        assert LastStop(cur, ns) == LastStop(v, w.nodes);
        assert StepLinked(edges, cur, es[0], ns[0]);
        forall s | 0 < s < |es| ensures StepLinked(edges, ns[s - 1], es[s], ns[s]) {
          assert es[s] == w.edges[s - 1] && ns[s] == w.nodes[s - 1];
          if s > 1 {
            assert ns[s - 1] == w.nodes[s - 2];
          }
        }
        assert Linked(edges, cur, ns, es);
      }
    }
  }

  /** More fuel does not change a walk that finished within less. */
  lemma {:induction false} FuelSuffices(t: Tables, edges: map<NodeId, seq<Edge>>, order: seq<NodeId>,
                                        cur: NodeId, end: NodeId, fuel: nat, more: nat)
    requires fuel <= more
    requires WalkFrom(t, edges, order, cur, end, fuel) != OutOfFuel
    ensures WalkFrom(t, edges, order, cur, end, more) == WalkFrom(t, edges, order, cur, end, fuel)
    decreases fuel
  {
    if cur != end && cur in order && !Falsy(Hop(t, cur, end)) && cur in edges {
      FuelSuffices(t, edges, order, Hop(t, cur, end).value, end, fuel - 1, more - 1);
    }
  }

  // ---------------------------------------------------------------------
  // The route branch
  // ---------------------------------------------------------------------

  /** On matrices with the next-hop invariant, an answer is never a TypeError and a path is a chain of `edges` lists. */
  lemma AnswerFollowsEdges(t: Tables, edges: map<NodeId, seq<Edge>>, order: seq<NodeId>, start: NodeId, end: NodeId, fuel: nat)
    requires HopsFollowEdges(t, edges, order)
    ensures Answer(t, edges, order, start, end, fuel) != TypeError
    ensures match Answer(t, edges, order, start, end, fuel)
      case ShortestPath(ns, es) =>
        && |ns| == |es| + 1 && ns[0] == start
        && forall s :: 0 <= s < |es| ==>
             ns[s] in edges && es[s].Some? && es[s].value in edges[ns[s]] && es[s].value.node2 == ns[s + 1]
      case _ => true
  {
    if PathAdmitted(t, order, start, end) {
      WalkFollowsEdges(t, edges, order, start, end, fuel);
      var w := WalkFrom(t, edges, order, start, end, fuel);
      if w.Walked? {
        assert Answer(t, edges, order, start, end, fuel) == ShortestPath([start] + w.nodes, w.edges);
        LinkedPath(edges, start, w.nodes, w.edges);
      }
    }
  }

  /** A linked walk from `start`, with `start` put in front, pairs each node with an edge to the next one. */
  lemma LinkedPath(edges: map<NodeId, seq<Edge>>, start: NodeId, ws: seq<NodeId>, es: seq<Option<Edge>>)
    requires |ws| == |es| && Linked(edges, start, ws, es)
    ensures var ns := [start] + ws;
      forall s :: 0 <= s < |es| ==>
        ns[s] in edges && es[s].Some? && es[s].value in edges[ns[s]] && es[s].value.node2 == ns[s + 1]
  {
    var ns := [start] + ws;
    forall s | 0 <= s < |es|
      ensures ns[s] in edges && es[s].Some? && es[s].value in edges[ns[s]] && es[s].value.node2 == ns[s + 1]
    {
      if s == 0 {
        assert StepLinked(edges, start, es[0], ws[0]);
      } else {
        assert StepLinked(edges, ws[s - 1], es[s], ws[s]);
      }
      assert ns[s + 1] == ws[s];
    }
  }

  /**
   * The route branch never raises a TypeError. A returned path starts at
   * `start`, has one edge fewer than nodes, and each edge is an input row
   * from one node of the path to the next.
   */
  lemma RouteFollowsRows(nodes: seq<Node>, rows: seq<Edge>, start: Option<NodeId>, end: Option<NodeId>, fuel: nat)
    ensures Route(nodes, rows, start, end, fuel) != TypeError
    ensures match Route(nodes, rows, start, end, fuel)
      case ShortestPath(ns, es) =>
        && |ns| == |es| + 1 && start.Some? && ns[0] == start.value
        && forall s :: 0 <= s < |es| ==>
             es[s].Some? && es[s].value in rows && es[s].value.node1 == ns[s] && es[s].value.node2 == ns[s + 1]
      case _ => true
  {
    if Truthy(start) && Truthy(end) {
      var order := LoadNodes(nodes).keys;
      var edges := GroupBySource(rows);
      var t := ComputedTables(order, edges);
      ComputedHops(order, edges);
      AnswerFollowsEdges(t, edges, order, start.value, end.value, fuel);
      var a := Answer(t, edges, order, start.value, end.value, fuel);
      assert Route(nodes, rows, start, end, fuel) == a;
      if a.ShortestPath? {
        forall s | 0 <= s < |a.edges|
          ensures a.edges[s].Some? && a.edges[s].value in rows && a.edges[s].value.node1 == a.nodes[s]
        {
          GroupBySourceAt(rows, a.nodes[s]);
          assert a.edges[s].value in OutEdges(rows, a.nodes[s]);
        }
      }
    }
  }

  /** On any matrices, the 400 reply is sent exactly when the start is not a node or its distance is `Infinity`. */
  lemma AnswerInvalid(t: Tables, edges: map<NodeId, seq<Edge>>, order: seq<NodeId>, start: NodeId, end: NodeId, fuel: nat)
    ensures Answer(t, edges, order, start, end, fuel) == InvalidNodeIds <==>
      start !in order || ((start, end) in t.dist && t.dist[(start, end)] == Inf)
  {
  }

  /**
   * The 400 reply is sent exactly when both ids are given and non-empty and
   * either the start id is not a key of `nodes` or the computed distance is
   * `Infinity`.
   */
  lemma InvalidWhenUnreachable(nodes: seq<Node>, rows: seq<Edge>, start: Option<NodeId>, end: Option<NodeId>, fuel: nat)
    ensures Route(nodes, rows, start, end, fuel) == InvalidNodeIds <==>
      && Truthy(start) && Truthy(end)
      && var order := LoadNodes(nodes).keys;
         (start.value !in order
          || ((start.value, end.value) in ComputedTables(order, GroupBySource(rows)).dist
              && ComputedTables(order, GroupBySource(rows)).dist[(start.value, end.value)] == Inf))
  {
    if Truthy(start) && Truthy(end) {
      var order := LoadNodes(nodes).keys;
      AnswerInvalid(ComputedTables(order, GroupBySource(rows)), GroupBySource(rows), order, start.value, end.value, fuel);
    }
  }

  /** The diagonal entry of a node starts finite and the triple loop only lowers it. */
  lemma DiagonalFinite(order: seq<NodeId>, edges: map<NodeId, seq<Edge>>, u: NodeId)
    requires u in order
    ensures (u, u) in ComputedTables(order, edges).dist && ComputedTables(order, edges).dist[(u, u)].Fin?
  {
    var s := SeedAll(InitialTables(order), order, edges);
    assert (u, u) in InitialTables(order).dist;
    assert s.dist[(u, u)].Fin?;
  }

  lemma AnswerToSelf(t: Tables, edges: map<NodeId, seq<Edge>>, order: seq<NodeId>, start: NodeId, fuel: nat)
    requires start in order && (start, start) in t.dist && t.dist[(start, start)].Fin?
    ensures Answer(t, edges, order, start, start, fuel) == ShortestPath([start], [])
  {
  }

  /** A route from the id of a node row to itself is that node alone. */
  lemma RouteToSelf(nodes: seq<Node>, rows: seq<Edge>, start: NodeId, fuel: nat)
    requires start != "" && exists t :: 0 <= t < |nodes| && nodes[t].id == start
    ensures Route(nodes, rows, Some(start), Some(start), fuel) == ShortestPath([start], [])
  {
    NodeRowIsKey(nodes, start);
    var order, edges := LoadNodes(nodes).keys, GroupBySource(rows);
    DiagonalFinite(order, edges, start);
    AnswerToSelf(ComputedTables(order, edges), edges, order, start, fuel);
  }

  /** The id of every node row is a key of `nodes`, so it has a row in `dist`. */
  lemma NodeRowIsKey(nodes: seq<Node>, id: NodeId)
    requires exists t :: 0 <= t < |nodes| && nodes[t].id == id
    ensures id in LoadNodes(nodes).keys
  {
    var ws := NodeWrites(nodes);
    var t :| 0 <= t < |nodes| && nodes[t].id == id;
    assert ws[t].0 == id;
    RunShape(ws);
  }

  /**
   * Node ids that are array indices ("1", "20") are visited first and in
   * ascending numeric order, whatever the order of the rows: rows 1, 20, 3,
   * 40 are visited as 1, 3, 20, 40. The other ids follow in the order of
   * their first row.
   */
  lemma {:induction false} NodeOrder(nodes: seq<Node>, a: nat, b: nat)
    requires a < b < |LoadNodes(nodes).keys|
    ensures var order := LoadNodes(nodes).keys;
      match (ArrayIndex(order[a]), ArrayIndex(order[b]))
      case (Some(x), Some(y)) => x < y
      case (Some(_), None) => true
      case (None, Some(_)) => false
      case (None, None) => FirstAt(NodeWrites(nodes), order[a]) < FirstAt(NodeWrites(nodes), order[b])
  {
    RunShape(NodeWrites(nodes));
    var order := LoadNodes(nodes).keys;
    assert ForInBefore(order[a], order[b], FirstAt(NodeWrites(nodes), order[a]), FirstAt(NodeWrites(nodes), order[b]));
  }

}
