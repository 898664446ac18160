/**
 * The route computation behind `/api/path` in frontend/server.js: the
 * nearest-node scan, the grouping of edge rows by source node, the dense
 * `dist`/`next` initialisation, directed edge seeding, the Floyd-Warshall
 * triple loop and the walk along `next` that rebuilds the path.
 *
 * The `nodes` object is a JsObject.Obj: its keys in the order `for...in`
 * visits them and its values. The objects `dist[u][v]` and `next[u][v]` are
 * flat maps keyed by (row, column) pairs; a row `dist[u]` exists exactly
 * when `u` is a key of `nodes`.
 */
module FrontendRouter {
  import opened Wrappers
  import opened JsObject

  type NodeId = string
  type Pair = (NodeId, NodeId)

  /** A row of processed_nodes.csv, coordinates after `parseFloat`. */
  datatype Node = Node(id: NodeId, lat: real, lon: real)

  /** A row of processed_edges.csv, its weight after `parseInt`. */
  datatype Edge = Edge(id: string, node1: NodeId, node2: NodeId, weight: int)

  /** A number stored in `dist`: a finite integer or `Infinity`. */
  datatype Dist = Fin(n: int) | Inf

  /** The two matrices `dist` and `next`; a `next` entry of `None` is `null`. */
  datatype Tables = Tables(dist: map<Pair, Dist>, next: map<Pair, Option<NodeId>>)

  /** JavaScript `+` on distances (`Infinity` absorbs). */
  function Plus(a: Dist, b: Dist): Dist {
    if a.Fin? && b.Fin? then Fin(a.n + b.n) else Inf
  }

  /** JavaScript `<` on distances. */
  predicate Below(a: Dist, b: Dist) {
    a.Fin? && (b.Inf? || a.n < b.n)
  }

  /** `<=` on distances. */
  predicate AtMost(a: Dist, b: Dist) {
    b.Inf? || (a.Fin? && a.n <= b.n)
  }

  predicate NonNegative(a: Dist) {
    a.Inf? || a.n >= 0
  }

  // ---------------------------------------------------------------------
  // nodes[row.id] = { id: row.id, lat: ..., lon: ... }
  // ---------------------------------------------------------------------

  /** The assignments the node rows make to `nodes`, in file order. */
  function NodeWrites(rows: seq<Node>): (ws: seq<(NodeId, Node)>)
    ensures |ws| == |rows|
  {
    seq(|rows|, t requires 0 <= t < |rows| => (rows[t].id, rows[t]))
  }

  /** The `nodes` object once processed_nodes.csv has been read. */
  function LoadNodes(rows: seq<Node>): Obj<Node> {
    Run(NodeWrites(rows))
  }

  /** The `data` callback over the node rows, proved against `LoadNodes`. */
  method ReadNodes(rows: seq<Node>) returns (nodes: Obj<Node>)
    ensures nodes == LoadNodes(rows)
  {
    ghost var ws := NodeWrites(rows);
    nodes := Obj([], map[]);
    for t := 0 to |rows|
      invariant nodes == Run(ws[..t])
    {
      assert ws[..t + 1][..t] == ws[..t] && ws[t] == (rows[t].id, rows[t]);
      nodes := Put(nodes, rows[t].id, rows[t]);
    }
    assert ws[..|rows|] == ws;
  }

  // ---------------------------------------------------------------------
  // findClosestNode
  // ---------------------------------------------------------------------

  /** The distance `findClosestNode` computes for the node under key `k`. */
  function KeyDistance(nodes: Obj<Node>, k: NodeId, lat: real, lon: real, metric: (real, real, real, real) -> real): real
    requires k in nodes.values
  {
    metric(nodes.values[k].lat, nodes.values[k].lon, lat, lon)
  }

  /**
   * `findClosestNode(lat, lon, nodes)`: the first key, in `for...in` order,
   * whose node is strictly closer than every earlier one. `metric` stands
   * for the floating-point Euclidean formula of the source.
   */
  method FindClosestNode(lat: real, lon: real, nodes: Obj<Node>, metric: (real, real, real, real) -> real)
    returns (closest: Option<NodeId>)
    requires forall k :: k in nodes.keys ==> k in nodes.values
    ensures closest.None? <==> nodes.keys == []
    ensures closest.Some? ==>
      exists b :: 0 <= b < |nodes.keys| && nodes.keys[b] == closest.value
        && (forall t :: 0 <= t < |nodes.keys| ==>
              KeyDistance(nodes, nodes.keys[b], lat, lon, metric) <= KeyDistance(nodes, nodes.keys[t], lat, lon, metric))
        && (forall t :: 0 <= t < b ==>
              KeyDistance(nodes, nodes.keys[b], lat, lon, metric) < KeyDistance(nodes, nodes.keys[t], lat, lon, metric))
  {
    var keys := nodes.keys;
    closest := None;
    var minDistance: Option<real> := None;  // None is Infinity
    ghost var best := 0;
    for t := 0 to |keys|
      invariant closest.None? <==> t == 0
      invariant minDistance.None? <==> t == 0
      invariant t > 0 ==> 0 <= best < t
      invariant t > 0 ==> closest == Some(keys[best])
      invariant t > 0 ==> minDistance == Some(KeyDistance(nodes, keys[best], lat, lon, metric))
      invariant t > 0 ==> forall s :: 0 <= s < t ==>
        KeyDistance(nodes, keys[best], lat, lon, metric) <= KeyDistance(nodes, keys[s], lat, lon, metric)
      invariant t > 0 ==> forall s :: 0 <= s < best ==>
        KeyDistance(nodes, keys[best], lat, lon, metric) < KeyDistance(nodes, keys[s], lat, lon, metric)
    {
      var node := nodes.values[keys[t]];
      var distance := metric(node.lat, node.lon, lat, lon);
      if minDistance.None? || distance < minDistance.value {
        minDistance := Some(distance);
        closest := Some(keys[t]);
        best := t;
      }
    }
  }

  // ---------------------------------------------------------------------
  // edges[row.node1].push(...)
  // ---------------------------------------------------------------------

  /** The rows whose `node1` is `u`, in input order. */
  function OutEdges(rows: seq<Edge>, u: NodeId): (r: seq<Edge>)
    ensures forall e :: e in r <==> e in rows && e.node1 == u
    decreases |rows|
  {
    if rows == [] then []
    else
      var e := rows[|rows| - 1];
      OutEdges(rows[..|rows| - 1], u) + (if e.node1 == u then [e] else [])
  }

  /** `edges[u]` holds every copy of a row leaving `u`, and no copy of any other row. */
  lemma {:induction false} OutEdgesCounts(rows: seq<Edge>, u: NodeId)
    ensures forall e :: multiset(OutEdges(rows, u))[e] == if e.node1 == u then multiset(rows)[e] else 0
    decreases |rows|
  {
    if rows != [] {
      OutEdgesCounts(rows[..|rows| - 1], u);
      assert rows == rows[..|rows| - 1] + [rows[|rows| - 1]];
    }
  }

  /** The `edges` object built row by row: each row is pushed onto `edges[row.node1]`. */
  function GroupBySource(rows: seq<Edge>): map<NodeId, seq<Edge>>
    decreases |rows|
  {
    if rows == [] then map[]
    else
      var m := GroupBySource(rows[..|rows| - 1]);
      var e := rows[|rows| - 1];
      m[e.node1 := (if e.node1 in m then m[e.node1] else []) + [e]]
  }

  /** `edges[u]` exists iff some row leaves `u`, and then holds exactly the rows leaving `u`, in input order. */
  lemma {:induction false} GroupBySourceAt(rows: seq<Edge>, u: NodeId)
    ensures u in GroupBySource(rows) <==> OutEdges(rows, u) != []
    ensures u in GroupBySource(rows) ==> GroupBySource(rows)[u] == OutEdges(rows, u)
    decreases |rows|
  {
    if rows != [] {
      GroupBySourceAt(rows[..|rows| - 1], u);
    }
  }

  // ---------------------------------------------------------------------
  // Initialisation and seeding
  // ---------------------------------------------------------------------

  predicate Square<V>(m: map<Pair, V>, order: seq<NodeId>) {
    forall u, v :: u in order && v in order ==> (u, v) in m
  }

  predicate Dense(t: Tables, order: seq<NodeId>) {
    Square(t.dist, order) && Square(t.next, order)
  }

  /** The value the initialisation loop stores in `dist[u][v]`. */
  function InitialDist(u: NodeId, v: NodeId): Dist {
    if u == v then Fin(0) else Inf
  }

  /** The inner initialisation loop for row `u` over the columns `vs`. */
  function InitRow(t: Tables, u: NodeId, vs: seq<NodeId>): (r: Tables)
    ensures forall p :: p in r.dist <==> p in t.dist || (p.0 == u && p.1 in vs)
    ensures forall p :: p in r.next <==> p in t.next || (p.0 == u && p.1 in vs)
    ensures forall p :: p in r.dist ==> r.dist[p] == if p.0 == u && p.1 in vs then InitialDist(p.0, p.1) else t.dist[p]
    ensures forall p :: p in r.next ==> r.next[p] == if p.0 == u && p.1 in vs then None else t.next[p]
    decreases |vs|
  {
    if vs == [] then t
    else
      var r0 := InitRow(t, u, vs[..|vs| - 1]);
      var v := vs[|vs| - 1];
      Tables(r0.dist[(u, v) := InitialDist(u, v)], r0.next[(u, v) := None])
  }

  /** The outer initialisation loop over the rows `us`. */
  function InitAll(t: Tables, us: seq<NodeId>, order: seq<NodeId>): (r: Tables)
    ensures forall p :: p in r.dist <==> p in t.dist || (p.0 in us && p.1 in order)
    ensures forall p :: p in r.next <==> p in t.next || (p.0 in us && p.1 in order)
    ensures forall p :: p in r.dist ==> r.dist[p] == if p.0 in us && p.1 in order then InitialDist(p.0, p.1) else t.dist[p]
    ensures forall p :: p in r.next ==> r.next[p] == if p.0 in us && p.1 in order then None else t.next[p]
    decreases |us|
  {
    if us == [] then t
    else InitRow(InitAll(t, us[..|us| - 1], order), us[|us| - 1], order)
  }

  /**
   * The matrices after the dense initialisation loop: `dist[u][u] = 0`,
   * `dist[u][v] = Infinity` and `next[u][v] = null` for every node pair, and
   * no other entry.
   */
  function InitialTables(order: seq<NodeId>): (t: Tables)
    ensures forall p :: p in t.dist <==> p.0 in order && p.1 in order
    ensures forall p :: p in t.next <==> p.0 in order && p.1 in order
    ensures forall p :: p in t.dist ==> t.dist[p] == (if p.0 == p.1 then Fin(0) else Inf)
    ensures forall p :: p in t.next ==> t.next[p] == None
  {
    InitAll(Tables(map[], map[]), order, order)
  }

  /** The inner initialisation loop: `dist[u][v]` and `next[u][v]` for every column `v`. */
  method InitializeRow(t0: Tables, u: NodeId, order: seq<NodeId>) returns (t: Tables)
    ensures t == InitRow(t0, u, order)
  {
    var dist, next := t0.dist, t0.next;
    for b := 0 to |order|
      invariant Tables(dist, next) == InitRow(t0, u, order[..b])
    {
      var v := order[b];
      dist := dist[(u, v) := if u == v then Fin(0) else Inf];
      next := next[(u, v) := None];
      assert order[..b + 1][..b] == order[..b];
    }
    assert order[..|order|] == order;
    t := Tables(dist, next);
  }

  /** One more row of the outer initialisation loop. */
  lemma InitAllStep(t: Tables, us: seq<NodeId>, a: nat, order: seq<NodeId>)
    requires a < |us|
    ensures InitAll(t, us[..a + 1], order) == InitRow(InitAll(t, us[..a], order), us[a], order)
  {
    assert us[..a + 1][..a] == us[..a];
  }

  /** The initialisation loop of the source, proved against `InitialTables`. */
  method InitializeMatrices(order: seq<NodeId>) returns (t: Tables)
    ensures t == InitialTables(order)
  {
    t := Tables(map[], map[]);
    for a := 0 to |order|
      invariant t == InitAll(Tables(map[], map[]), order[..a], order)
    {
      t := InitializeRow(t, order[a], order);
      InitAllStep(Tables(map[], map[]), order, a, order);
    }
    assert order[..|order|] == order;
  }

  /** The last edge of `es` that leads to `v`: the one whose write survives. */
  function LastEdgeTo(es: seq<Edge>, v: NodeId): (r: Option<Edge>)
    ensures r.Some? ==> r.value in es && r.value.node2 == v
    ensures r.None? <==> forall e :: e in es ==> e.node2 != v
    decreases |es|
  {
    if es == [] then None
    else if es[|es| - 1].node2 == v then Some(es[|es| - 1])
    else LastEdgeTo(es[..|es| - 1], v)
  }

  /** The position of the last edge of `es` leading to `v`, or -1 when there is none. */
  function LastEdgeToAt(es: seq<Edge>, v: NodeId): (r: int)
    ensures -1 <= r < |es|
    ensures r >= 0 ==> es[r].node2 == v
    ensures forall q :: r < q < |es| ==> es[q].node2 != v
    decreases |es|
  {
    if es == [] then -1
    else if es[|es| - 1].node2 == v then |es| - 1
    else LastEdgeToAt(es[..|es| - 1], v)
  }

  /** `LastEdgeTo` returns the edge at `LastEdgeToAt`: the last one, no later edge leads to `v`. */
  lemma {:induction false} LastEdgeToIsLast(es: seq<Edge>, v: NodeId)
    ensures LastEdgeTo(es, v) == if LastEdgeToAt(es, v) < 0 then None else Some(es[LastEdgeToAt(es, v)])
    decreases |es|
  {
    if es != [] && es[|es| - 1].node2 != v {
      LastEdgeToIsLast(es[..|es| - 1], v);
    }
  }

  /** `edges[u].forEach(...)`: each edge u -> v writes `dist[u][v]` and `next[u][v] = v`; later edges overwrite earlier ones. */
  function SeedRow(t: Tables, u: NodeId, es: seq<Edge>): (r: Tables)
    ensures forall p :: p in r.dist <==> p in t.dist || (p.0 == u && LastEdgeTo(es, p.1).Some?)
    ensures forall p :: p in r.next <==> p in t.next || (p.0 == u && LastEdgeTo(es, p.1).Some?)
    ensures forall p :: p in r.dist ==>
      r.dist[p] == if p.0 == u && LastEdgeTo(es, p.1).Some? then Fin(LastEdgeTo(es, p.1).value.weight) else t.dist[p]
    ensures forall p :: p in r.next ==>
      r.next[p] == if p.0 == u && LastEdgeTo(es, p.1).Some? then Some(p.1) else t.next[p]
    decreases |es|
  {
    if es == [] then t
    else
      var r0 := SeedRow(t, u, es[..|es| - 1]);
      var e := es[|es| - 1];
      Tables(r0.dist[(u, e.node2) := Fin(e.weight)], r0.next[(u, e.node2) := Some(e.node2)])
  }

  /** The seeding loop over every node `u` that has an entry in `edges`. */
  function SeedAll(t: Tables, us: seq<NodeId>, edges: map<NodeId, seq<Edge>>): (r: Tables)
    ensures forall p :: p in r.dist <==> p in t.dist || (p.0 in us && p.0 in edges && LastEdgeTo(edges[p.0], p.1).Some?)
    ensures forall p :: p in r.next <==> p in t.next || (p.0 in us && p.0 in edges && LastEdgeTo(edges[p.0], p.1).Some?)
    ensures forall p :: p in r.dist ==>
      r.dist[p] == if p.0 in us && p.0 in edges && LastEdgeTo(edges[p.0], p.1).Some?
                   then Fin(LastEdgeTo(edges[p.0], p.1).value.weight) else t.dist[p]
    ensures forall p :: p in r.next ==>
      r.next[p] == if p.0 in us && p.0 in edges && LastEdgeTo(edges[p.0], p.1).Some? then Some(p.1) else t.next[p]
    decreases |us|
  {
    if us == [] then t
    else
      var r0 := SeedAll(t, us[..|us| - 1], edges);
      var u := us[|us| - 1];
      if u in edges then SeedRow(r0, u, edges[u]) else r0
  }

  /** The seeding loop of the source, proved against `SeedAll`. */
  method SeedEdges(order: seq<NodeId>, edges: map<NodeId, seq<Edge>>, t0: Tables) returns (t: Tables)
    ensures t == SeedAll(t0, order, edges)
  {
    var dist, next := t0.dist, t0.next;
    for a := 0 to |order|
      invariant Tables(dist, next) == SeedAll(t0, order[..a], edges)
    {
      var u := order[a];
      if u in edges {
        var es := edges[u];
        ghost var before := Tables(dist, next);
        for b := 0 to |es|
          invariant Tables(dist, next) == SeedRow(before, u, es[..b])
        {
          var v := es[b].node2;
          dist := dist[(u, v) := Fin(es[b].weight)];
          next := next[(u, v) := Some(v)];
          assert es[..b + 1][..b] == es[..b];
        }
        assert es[..|es|] == es;
      }
      assert order[..a + 1][..a] == order[..a];
    }
    assert order[..|order|] == order;
    t := Tables(dist, next);
  }

  // ---------------------------------------------------------------------
  // Floyd-Warshall
  // ---------------------------------------------------------------------

  /**
   * One innermost iteration: when the way through `k` is strictly shorter,
   * `dist[i][j]` becomes it and `next[i][j]` becomes `next[i][k]`; otherwise
   * nothing changes. No other entry is touched.
   */
  function Step(t: Tables, k: NodeId, i: NodeId, j: NodeId): (r: Tables)
    requires (i, k) in t.dist && (k, j) in t.dist && (i, j) in t.dist && (i, k) in t.next && (i, j) in t.next
    ensures r.dist.Keys == t.dist.Keys && r.next.Keys == t.next.Keys
    ensures forall p :: p in t.dist && p != (i, j) ==> r.dist[p] == t.dist[p]
    ensures forall p :: p in t.next && p != (i, j) ==> r.next[p] == t.next[p]
    ensures Below(Plus(t.dist[(i, k)], t.dist[(k, j)]), t.dist[(i, j)]) ==>
      r.dist[(i, j)] == Plus(t.dist[(i, k)], t.dist[(k, j)]) && r.next[(i, j)] == t.next[(i, k)]
    ensures !Below(Plus(t.dist[(i, k)], t.dist[(k, j)]), t.dist[(i, j)]) ==> r == t
  {
    var through := Plus(t.dist[(i, k)], t.dist[(k, j)]);
    if Below(through, t.dist[(i, j)]) then Tables(t.dist[(i, j) := through], t.next[(i, j) := t.next[(i, k)]])
    else t
  }

  /** The `j` loop for fixed `k` and `i`. */
  function RelaxRow(t: Tables, k: NodeId, i: NodeId, js: seq<NodeId>, order: seq<NodeId>): (r: Tables)
    requires Dense(t, order) && k in order && i in order && forall j :: j in js ==> j in order
    ensures r.dist.Keys == t.dist.Keys && r.next.Keys == t.next.Keys
    ensures forall p :: p in t.dist ==> AtMost(r.dist[p], t.dist[p])
    decreases |js|
  {
    if js == [] then t
    else Step(RelaxRow(t, k, i, js[..|js| - 1], order), k, i, js[|js| - 1])
  }

  /** The `i` loop for fixed `k`. */
  function RelaxRound(t: Tables, k: NodeId, srcs: seq<NodeId>, order: seq<NodeId>): (r: Tables)
    requires Dense(t, order) && k in order && forall i :: i in srcs ==> i in order
    ensures r.dist.Keys == t.dist.Keys && r.next.Keys == t.next.Keys
    ensures forall p :: p in t.dist ==> AtMost(r.dist[p], t.dist[p])
    decreases |srcs|
  {
    if srcs == [] then t
    else RelaxRow(RelaxRound(t, k, srcs[..|srcs| - 1], order), k, srcs[|srcs| - 1], order, order)
  }

  /** The `k` loop: the whole triple loop when `ks` is the node order. */
  function RelaxAll(t: Tables, ks: seq<NodeId>, order: seq<NodeId>): (r: Tables)
    requires Dense(t, order) && forall k :: k in ks ==> k in order
    ensures r.dist.Keys == t.dist.Keys && r.next.Keys == t.next.Keys
    ensures forall p :: p in t.dist ==> AtMost(r.dist[p], t.dist[p])
    decreases |ks|
  {
    if ks == [] then t
    else RelaxRound(RelaxAll(t, ks[..|ks| - 1], order), ks[|ks| - 1], order, order)
  }

  /** The innermost `for (const j in nodes)` loop for fixed `k` and `i`. */
  method RelaxRowLoop(order: seq<NodeId>, k: NodeId, i: NodeId, t0: Tables) returns (t: Tables)
    requires Dense(t0, order) && k in order && i in order
    ensures t == RelaxRow(t0, k, i, order, order)
  {
    var dist, next := t0.dist, t0.next;
    for c := 0 to |order|
      invariant Tables(dist, next) == RelaxRow(t0, k, i, order[..c], order)
      invariant dist.Keys == t0.dist.Keys && next.Keys == t0.next.Keys
    {
      var j := order[c];
      var through := Plus(dist[(i, k)], dist[(k, j)]);
      if Below(through, dist[(i, j)]) {
        dist := dist[(i, j) := through];
        next := next[(i, j) := next[(i, k)]];
      }
      assert order[..c + 1][..c] == order[..c];
    }
    assert order[..|order|] == order;
    t := Tables(dist, next);
  }

  /** The `for (const i in nodes)` loop for fixed `k`. */
  method RelaxRoundLoop(order: seq<NodeId>, k: NodeId, t0: Tables) returns (t: Tables)
    requires Dense(t0, order) && k in order
    ensures t == RelaxRound(t0, k, order, order)
  {
    t := t0;
    for b := 0 to |order|
      invariant t == RelaxRound(t0, k, order[..b], order)
    {
      RelaxRoundStep(t0, k, order, b, order);
      t := RelaxRowLoop(order, k, order[b], t);
    }
    assert order[..|order|] == order;
  }

  /** Relaxing keeps the matrices dense, since it keeps their keys. */
  lemma KeepsDense(t0: Tables, t: Tables, order: seq<NodeId>)
    requires Dense(t0, order) && t.dist.Keys == t0.dist.Keys && t.next.Keys == t0.next.Keys
    ensures Dense(t, order)
  {
    forall u, v | u in order && v in order ensures (u, v) in t.dist && (u, v) in t.next {
      assert (u, v) in t0.dist && (u, v) in t0.next;
    }
  }

  /** One more source row of the `i` loop. */
  lemma RelaxRoundStep(t: Tables, k: NodeId, srcs: seq<NodeId>, b: nat, order: seq<NodeId>)
    requires Dense(t, order) && k in order && b < |srcs| && forall i :: i in srcs ==> i in order
    ensures Dense(RelaxRound(t, k, srcs[..b], order), order) && srcs[b] in order
    ensures RelaxRound(t, k, srcs[..b + 1], order)
         == RelaxRow(RelaxRound(t, k, srcs[..b], order), k, srcs[b], order, order)
  {
    assert srcs[..b + 1][..b] == srcs[..b];
    KeepsDense(t, RelaxRound(t, k, srcs[..b], order), order);
  }

  /** One more intermediate node of the `k` loop. */
  lemma RelaxAllStep(t: Tables, ks: seq<NodeId>, a: nat, order: seq<NodeId>)
    requires Dense(t, order) && a < |ks| && forall k :: k in ks ==> k in order
    ensures Dense(RelaxAll(t, ks[..a], order), order) && ks[a] in order
    ensures RelaxAll(t, ks[..a + 1], order) == RelaxRound(RelaxAll(t, ks[..a], order), ks[a], order, order)
  {
    assert ks[..a + 1][..a] == ks[..a];
    KeepsDense(t, RelaxAll(t, ks[..a], order), order);
  }

  /** The triple `for...in` loop of the source, relaxing `dist` and `next` in place. */
  method FloydWarshall(order: seq<NodeId>, t0: Tables) returns (t: Tables)
    requires Dense(t0, order)
    ensures t == RelaxAll(t0, order, order)
  {
    t := t0;
    for a := 0 to |order|
      invariant t == RelaxAll(t0, order[..a], order)
    {
      RelaxAllStep(t0, order, a, order);
      t := RelaxRoundLoop(order, order[a], t);
    }
    assert order[..|order|] == order;
  }

  // ---------------------------------------------------------------------
  // Path reconstruction
  // ---------------------------------------------------------------------

  /** `edges[u].find((edge) => edge.node2 === v)`. */
  function FindEdgeTo(es: seq<Edge>, v: NodeId): (r: Option<Edge>)
    ensures r.Some? ==> r.value in es && r.value.node2 == v
    ensures r.None? <==> forall e :: e in es ==> e.node2 != v
    decreases |es|
  {
    if es == [] then None
    else if es[0].node2 == v then Some(es[0])
    else FindEdgeTo(es[1..], v)
  }

  /** The position of the first edge of `es` leading to `v`, or `|es|` when there is none. */
  function FindEdgeToAt(es: seq<Edge>, v: NodeId): (r: nat)
    ensures r <= |es|
    ensures r < |es| ==> es[r].node2 == v
    ensures forall q :: 0 <= q < r ==> es[q].node2 != v
    decreases |es|
  {
    if es == [] then 0
    else if es[0].node2 == v then 0
    else 1 + FindEdgeToAt(es[1..], v)
  }

  /** `find` returns the edge at `FindEdgeToAt`: the first one, no earlier edge leads to `v`. */
  lemma {:induction false} FindEdgeToIsFirst(es: seq<Edge>, v: NodeId)
    ensures FindEdgeTo(es, v) == if FindEdgeToAt(es, v) == |es| then None else Some(es[FindEdgeToAt(es, v)])
    decreases |es|
  {
    if es != [] && es[0].node2 != v {
      FindEdgeToIsFirst(es[1..], v);
    }
  }

  /** What the walk pushes after the start node, or how it ends abnormally. */
  datatype Walk = Walked(nodes: seq<NodeId>, edges: seq<Option<Edge>>) | Crashed | OutOfFuel

  /** `!nextNode`: `null` or the empty string. */
  predicate Falsy(hop: Option<NodeId>) {
    hop.None? || hop.value == ""
  }

  /** The hop `next[cur][end]`, `None` when that entry is missing. */
  function Hop(t: Tables, cur: NodeId, end: NodeId): Option<NodeId> {
    if (cur, end) in t.next then t.next[(cur, end)] else None
  }

  /**
   * The `while (currentNode !== endNode)` loop from `cur`, allowed at most
   * `fuel` iterations. `Crashed` is a TypeError: a missing `next[cur]` row or
   * a missing `edges[cur]` list.
   */
  function WalkFrom(t: Tables, edges: map<NodeId, seq<Edge>>, order: seq<NodeId>, cur: NodeId, end: NodeId, fuel: nat): Walk
    decreases fuel
  {
    if cur == end then Walked([], [])
    else if fuel == 0 then OutOfFuel
    else if cur !in order then Crashed
    else if Falsy(Hop(t, cur, end)) then Walked([], [])
    else if cur !in edges then Crashed
    else
      var v := Hop(t, cur, end).value;
      match WalkFrom(t, edges, order, v, end, fuel - 1)
      case Walked(ns, es) => Walked([v] + ns, [FindEdgeTo(edges[cur], v)] + es)
      case other => other
  }

  /** Prefixes already pushed nodes and edges onto a walk's outcome. */
  function Extend(ns: seq<NodeId>, es: seq<Option<Edge>>, w: Walk): Walk {
    match w
    case Walked(ns', es') => Walked(ns + ns', es + es')
    case other => other
  }

  /** One iteration of the walk: the hop `v` is pushed in front of the walk from `v`. */
  lemma WalkStep(t: Tables, edges: map<NodeId, seq<Edge>>, order: seq<NodeId>, cur: NodeId, end: NodeId, fuel: nat)
    requires cur != end && fuel > 0 && cur in order && !Falsy(Hop(t, cur, end)) && cur in edges
    ensures WalkFrom(t, edges, order, cur, end, fuel)
         == Extend([Hop(t, cur, end).value], [FindEdgeTo(edges[cur], Hop(t, cur, end).value)],
                   WalkFrom(t, edges, order, Hop(t, cur, end).value, end, fuel - 1))
  {
  }

  /** Prefixing twice is prefixing once with the concatenation. */
  lemma ExtendTwice(ns: seq<NodeId>, es: seq<Option<Edge>>, ns2: seq<NodeId>, es2: seq<Option<Edge>>, w: Walk)
    ensures Extend(ns + ns2, es + es2, w) == Extend(ns, es, Extend(ns2, es2, w))
  {
    if w.Walked? {
      assert ns + ns2 + w.nodes == ns + (ns2 + w.nodes);
      assert es + es2 + w.edges == es + (es2 + w.edges);
    }
  }

  /** The reconstruction loop, proved against `WalkFrom`; the result's node list starts with `start`. */
  method ReconstructPath(t: Tables, edges: map<NodeId, seq<Edge>>, order: seq<NodeId>, start: NodeId, end: NodeId, fuel: nat)
    returns (w: Walk)
    ensures w == Extend([start], [], WalkFrom(t, edges, order, start, end, fuel))
    ensures w.Walked? ==> |w.nodes| == |w.edges| + 1 && w.nodes[0] == start
  {
    var pathNodes := [start];
    var pathEdges: seq<Option<Edge>> := [];
    var currentNode := start;
    var f := fuel;
    while currentNode != end
      invariant |pathNodes| == |pathEdges| + 1 && pathNodes[0] == start
      invariant Extend(pathNodes, pathEdges, WalkFrom(t, edges, order, currentNode, end, f))
             == Extend([start], [], WalkFrom(t, edges, order, start, end, fuel))
      decreases f
    {
      if f == 0 {
        return OutOfFuel;
      }
      if currentNode !in order {
        return Crashed;
      }
      var nextNode := Hop(t, currentNode, end);
      if Falsy(nextNode) {
        break;
      }
      if currentNode !in edges {
        return Crashed;
      }
      var v := nextNode.value;
      WalkStep(t, edges, order, currentNode, end, f);
      ExtendTwice(pathNodes, pathEdges, [v], [FindEdgeTo(edges[currentNode], v)], WalkFrom(t, edges, order, v, end, f - 1));
      pathNodes := pathNodes + [v];
      pathEdges := pathEdges + [FindEdgeTo(edges[currentNode], v)];
      currentNode := v;
      f := f - 1;
    }
    w := Walked(pathNodes, pathEdges);
  }

  // ---------------------------------------------------------------------
  // The handler's route branch
  // ---------------------------------------------------------------------

  /**
   * Outcomes of the route branch: the JSON path, the 400 "Invalid node IDs
   * provided." reply, the `else if` branch taken when an endpoint is falsy
   * (not modelled further), an uncaught TypeError, or a walk longer than the
   * fuel.
   */
  datatype Response =
    | ShortestPath(nodes: seq<NodeId>, edges: seq<Option<Edge>>)
    | InvalidNodeIds
    | MissingEndpoint
    | TypeError
    | WalkTooLong

  /** The matrices after initialisation, seeding and the triple loop. */
  function ComputedTables(order: seq<NodeId>, edges: map<NodeId, seq<Edge>>): (t: Tables)
    ensures Dense(t, order)
  {
    RelaxAll(SeedAll(InitialTables(order), order, edges), order, order)
  }

  /** `dist[startNode] && dist[startNode][endNode] !== Infinity`. */
  predicate PathAdmitted(t: Tables, order: seq<NodeId>, start: NodeId, end: NodeId) {
    start in order && ((start, end) !in t.dist || t.dist[(start, end)] != Inf)
  }

  /** Lines 120-146 on given matrices: the admission test, then the walk from `start`. */
  function Answer(t: Tables, edges: map<NodeId, seq<Edge>>, order: seq<NodeId>, start: NodeId, end: NodeId, fuel: nat): Response {
    if PathAdmitted(t, order, start, end) then
      match Extend([start], [], WalkFrom(t, edges, order, start, end, fuel))
      case Walked(ns, es) => ShortestPath(ns, es)
      case Crashed => TypeError
      case OutOfFuel => WalkTooLong
    else InvalidNodeIds
  }

  /** A query parameter as `startNode && endNode` sees it: `None` is an absent parameter, `""` is falsy too. */
  predicate Truthy(param: Option<NodeId>) {
    param.Some? && param.value != ""
  }

  /**
   * The route branch of the handler (lines 118-146) on the node rows and
   * edge rows read from the two CSV files, for the query parameters
   * `startNode` and `endNode`.
   */
  function Route(nodes: seq<Node>, rows: seq<Edge>, start: Option<NodeId>, end: Option<NodeId>, fuel: nat): Response {
    if !(Truthy(start) && Truthy(end)) then MissingEndpoint
    else
      var order := LoadNodes(nodes).keys;
      var edges := GroupBySource(rows);
      Answer(ComputedTables(order, edges), edges, order, start.value, end.value, fuel)
  }

  /** The handler's computation, step by step as the source runs it. */
  method PathQuery(nodes: seq<Node>, rows: seq<Edge>, start: Option<NodeId>, end: Option<NodeId>, fuel: nat) returns (r: Response)
    ensures r == Route(nodes, rows, start, end, fuel)
  {
    var nodeObject := ReadNodes(nodes);
    var order := nodeObject.keys;
    var edges := GroupBySource(rows);
    if !(Truthy(start) && Truthy(end)) {
      return MissingEndpoint;
    }
    var t := InitializeMatrices(order);
    t := SeedEdges(order, edges, t);
    t := FloydWarshall(order, t);
    if PathAdmitted(t, order, start.value, end.value) {
      var w := ReconstructPath(t, edges, order, start.value, end.value, fuel);
      match w
      case Walked(ns, es) => r := ShortestPath(ns, es);
      case Crashed => r := TypeError;
      case OutOfFuel => r := WalkTooLong;
    } else {
      r := InvalidNodeIds;
    }
  }
}
