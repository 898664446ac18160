/**
 * The computation inside `Solution.floydWarshall` in backend/app.js, on
 * values: seeding the sparse `distances`/`nextNodes` objects from each
 * location's edge list, the k/i/j relaxation, the walk along `nextNodes`
 * and the stitching of path edges from `this.edges`.
 *
 * `distances[u][v]` and `nextNodes[u][v]` are flat maps keyed by (u, v);
 * a missing key is `undefined`. Location ids are integers, as Papa Parse's
 * `dynamicTyping` reads them.
 */
module BackendRouting {
  import opened Wrappers

  type LocId = int
  type Pair = (LocId, LocId)

  /** An `Edge` object: a row of processed_edges.csv plus its `is_blocked` flag. */
  datatype Edge = Edge(id: string, name: string, node1: LocId, node2: LocId,
                       weight: real, normalizedWeight: int, isBlocked: bool)

  /** What `floydWarshall` reads from one location: its id and its `edges` list. */
  datatype Row = Row(id: LocId, edges: seq<Edge>)

  /** The `distances` and `nextNodes` objects. */
  datatype Tables = Tables(dist: map<Pair, int>, next: map<Pair, LocId>)

  /** Both objects are always written together, so they have the same keys. */
  predicate KeysAgree(t: Tables) {
    t.dist.Keys == t.next.Keys
  }

  /** Each location's list holds only edges of `this.edges` that have the location as an endpoint. */
  predicate RowsValid(rows: seq<Row>, all: seq<Edge>) {
    forall r, e :: r in rows && e in r.edges ==> e in all && (e.node1 == r.id || e.node2 == r.id)
  }

  /** The ids the three `forEach` loops visit, in location order. */
  function RowIds(rows: seq<Row>): (ids: seq<LocId>)
    ensures |ids| == |rows|
    ensures forall s :: 0 <= s < |rows| ==> ids[s] == rows[s].id
  {
    seq(|rows|, s requires 0 <= s < |rows| => rows[s].id)
  }

  // ---------------------------------------------------------------------
  // Seeding, as written (lines 80-88)
  // ---------------------------------------------------------------------

  /** The last edge of `es` whose `node1` is `x`: its write to `distances[u][x]` is the one that survives. */
  function LastFrom(es: seq<Edge>, x: LocId): (r: Option<Edge>)
    ensures r.Some? ==> r.value in es && r.value.node1 == x
    ensures r.None? <==> forall e :: e in es ==> e.node1 != x
    decreases |es|
  {
    if es == [] then None
    else if es[|es| - 1].node1 == x then Some(es[|es| - 1])
    else LastFrom(es[..|es| - 1], x)
  }

  /** The position of the last edge of `es` with `node1 == x`, or -1 when there is none. */
  function LastFromAt(es: seq<Edge>, x: LocId): (r: int)
    ensures -1 <= r < |es|
    ensures r >= 0 ==> es[r].node1 == x
    ensures forall q :: r < q < |es| ==> es[q].node1 != x
    decreases |es|
  {
    if es == [] then -1
    else if es[|es| - 1].node1 == x then |es| - 1
    else LastFromAt(es[..|es| - 1], x)
  }

  /** `LastFrom` returns the edge at `LastFromAt`: the last one, no later edge has `node1 == x`. */
  lemma {:induction false} LastFromIsLast(es: seq<Edge>, x: LocId)
    ensures LastFrom(es, x) == if LastFromAt(es, x) < 0 then None else Some(es[LastFromAt(es, x)])
    decreases |es|
  {
    if es != [] && es[|es| - 1].node1 != x {
      LastFromIsLast(es[..|es| - 1], x);
    }
  }

  /** The last row with id `u`: a later location with the same id resets the row an earlier one filled. */
  function LastRow(rows: seq<Row>, u: LocId): (r: Option<Row>)
    ensures r.Some? ==> r.value in rows && r.value.id == u
    ensures r.None? <==> forall w :: w in rows ==> w.id != u
    decreases |rows|
  {
    if rows == [] then None
    else if rows[|rows| - 1].id == u then Some(rows[|rows| - 1])
    else LastRow(rows[..|rows| - 1], u)
  }

  /** The position of the last row with id `u`, or -1 when there is none. */
  function LastRowAt(rows: seq<Row>, u: LocId): (r: int)
    ensures -1 <= r < |rows|
    ensures r >= 0 ==> rows[r].id == u
    ensures forall q :: r < q < |rows| ==> rows[q].id != u
    decreases |rows|
  {
    if rows == [] then -1
    else if rows[|rows| - 1].id == u then |rows| - 1
    else LastRowAt(rows[..|rows| - 1], u)
  }

  /** `LastRow` returns the row at `LastRowAt`: the last one, no later row has id `u`. */
  lemma {:induction false} LastRowIsLast(rows: seq<Row>, u: LocId)
    ensures LastRow(rows, u) == if LastRowAt(rows, u) < 0 then None else Some(rows[LastRowAt(rows, u)])
    decreases |rows|
  {
    if rows != [] && rows[|rows| - 1].id != u {
      LastRowIsLast(rows[..|rows| - 1], u);
    }
  }

  /** `distances[u] = {}; nextNodes[u] = {};` */
  function ClearRow(t: Tables, u: LocId): (r: Tables)
    ensures forall p :: p in r.dist <==> p in t.dist && p.0 != u
    ensures forall p :: p in r.next <==> p in t.next && p.0 != u
    ensures forall p :: p in r.dist ==> r.dist[p] == t.dist[p]
    ensures forall p :: p in r.next ==> r.next[p] == t.next[p]
  {
    Tables(map p | p in t.dist && p.0 != u :: t.dist[p], map p | p in t.next && p.0 != u :: t.next[p])
  }

  /** `location.edges.forEach(...)`: each edge writes `distances[u][edge.node1]` and `nextNodes[u][edge.node1] = edge.node2`. */
  function SeedRowAsWritten(t: Tables, u: LocId, es: seq<Edge>): (r: Tables)
    ensures forall p :: p in r.dist <==> p in t.dist || (p.0 == u && LastFrom(es, p.1).Some?)
    ensures forall p :: p in r.next <==> p in t.next || (p.0 == u && LastFrom(es, p.1).Some?)
    ensures forall p :: p in r.dist ==>
      r.dist[p] == if p.0 == u && LastFrom(es, p.1).Some? then LastFrom(es, p.1).value.normalizedWeight else t.dist[p]
    ensures forall p :: p in r.next ==>
      r.next[p] == if p.0 == u && LastFrom(es, p.1).Some? then LastFrom(es, p.1).value.node2 else t.next[p]
    decreases |es|
  {
    if es == [] then t
    else
      var r0 := SeedRowAsWritten(t, u, es[..|es| - 1]);
      var e := es[|es| - 1];
      Tables(r0.dist[(u, e.node1) := e.normalizedWeight], r0.next[(u, e.node1) := e.node2])
  }

  /**
   * The seeding loop as the source writes it: entry (u, x) exists exactly
   * when the last location with id `u` has an edge whose `node1` is `x`, and
   * then holds that list's last such edge's weight and its `node2`.
   */
  function SeedAsWritten(rows: seq<Row>): (r: Tables)
    ensures KeysAgree(r)
    ensures forall p :: p in r.dist <==> LastRow(rows, p.0).Some? && LastFrom(LastRow(rows, p.0).value.edges, p.1).Some?
    ensures forall p :: p in r.dist ==>
      && r.dist[p] == LastFrom(LastRow(rows, p.0).value.edges, p.1).value.normalizedWeight
      && r.next[p] == LastFrom(LastRow(rows, p.0).value.edges, p.1).value.node2
    decreases |rows|
  {
    if rows == [] then Tables(map[], map[])
    else
      var row := rows[|rows| - 1];
      SeedRowAsWritten(ClearRow(SeedAsWritten(rows[..|rows| - 1]), row.id), row.id, row.edges)
  }

  // ---------------------------------------------------------------------
  // Relaxation (lines 90-103)
  // ---------------------------------------------------------------------

  /** `!distances[i][j]`: the entry is `undefined` or 0. */
  predicate Unset(t: Tables, i: LocId, j: LocId) {
    (i, j) !in t.dist || t.dist[(i, j)] == 0
  }

  /**
   * One innermost iteration. It writes only when `distances[i][k]` and
   * `distances[k][j]` are both defined, stores their sum together with
   * `nextNodes[i][k]`, and never raises a defined non-zero entry.
   */
  function Step(t: Tables, k: LocId, i: LocId, j: LocId): (r: Tables)
    requires KeysAgree(t)
    ensures KeysAgree(r) && t.dist.Keys <= r.dist.Keys
    ensures r == t || (
      && (i, k) in t.dist && (k, j) in t.dist
      && r.dist == t.dist[(i, j) := t.dist[(i, k)] + t.dist[(k, j)]]
      && r.next == t.next[(i, j) := t.next[(i, k)]])
    ensures (i, j) in t.dist && t.dist[(i, j)] != 0 ==> r.dist[(i, j)] <= t.dist[(i, j)]
    ensures r != t && (i, j) in t.dist && t.dist[(i, j)] != 0 ==> r.dist[(i, j)] < t.dist[(i, j)]
  {
    if (i, k) in t.dist && (k, j) in t.dist && (Unset(t, i, j) || t.dist[(i, k)] + t.dist[(k, j)] < t.dist[(i, j)]) then
      Tables(t.dist[(i, j) := t.dist[(i, k)] + t.dist[(k, j)]], t.next[(i, j) := t.next[(i, k)]])
    else t
  }

  /** The `j` loop for fixed `k` and `i`. */
  function RelaxRow(t: Tables, k: LocId, i: LocId, js: seq<LocId>): (r: Tables)
    requires KeysAgree(t)
    ensures KeysAgree(r) && t.dist.Keys <= r.dist.Keys
    decreases |js|
  {
    if js == [] then t
    else Step(RelaxRow(t, k, i, js[..|js| - 1]), k, i, js[|js| - 1])
  }

  /** The `i` loop for fixed `k`. */
  function RelaxRound(t: Tables, k: LocId, srcs: seq<LocId>, ids: seq<LocId>): (r: Tables)
    requires KeysAgree(t)
    ensures KeysAgree(r) && t.dist.Keys <= r.dist.Keys
    decreases |srcs|
  {
    if srcs == [] then t
    else RelaxRow(RelaxRound(t, k, srcs[..|srcs| - 1], ids), k, srcs[|srcs| - 1], ids)
  }

  /** The `k` loop: the whole triple loop when `ks` is the location order. */
  function RelaxAll(t: Tables, ks: seq<LocId>, ids: seq<LocId>): (r: Tables)
    requires KeysAgree(t)
    ensures KeysAgree(r) && t.dist.Keys <= r.dist.Keys
    decreases |ks|
  {
    if ks == [] then t
    else RelaxRound(RelaxAll(t, ks[..|ks| - 1], ids), ks[|ks| - 1], ids, ids)
  }

  // ---------------------------------------------------------------------
  // The walk (lines 117-126) and the edge stitching (lines 128-140)
  // ---------------------------------------------------------------------

  /**
   * The `while (currentNode !== endNodeId)` loop from `cur`, allowed at most
   * `fuel` iterations: the nodes pushed before `endNodeId`, or the early
   * `{nodes: [], edges: []}` return, or a TypeError from a missing
   * `nextNodes[currentNode]` row.
   */
  datatype Walk = Reached(path: seq<LocId>) | Undefined | NoRow | OutOfFuel

  function WalkFrom(t: Tables, ids: seq<LocId>, cur: LocId, end: LocId, fuel: nat): Walk
    decreases fuel
  {
    if cur == end then Reached([])
    else if fuel == 0 then OutOfFuel
    else if cur !in ids then NoRow
    else if (cur, end) !in t.next then Undefined
    else
      match WalkFrom(t, ids, t.next[(cur, end)], end, fuel - 1)
      case Reached(p) => Reached([cur] + p)
      case other => other
  }

  /** The edge connects `a` and `b` in either orientation. */
  predicate Joins(e: Edge, a: LocId, b: LocId) {
    (e.node1 == a && e.node2 == b) || (e.node1 == b && e.node2 == a)
  }

  /** `this.edges.find(...)`: the first unblocked edge joining `a` and `b`. */
  function FindJoining(all: seq<Edge>, a: LocId, b: LocId): (r: Option<Edge>)
    ensures r.Some? ==> r.value in all && Joins(r.value, a, b) && !r.value.isBlocked
    ensures r.None? <==> forall e :: e in all ==> !Joins(e, a, b) || e.isBlocked
    decreases |all|
  {
    if all == [] then None
    else if Joins(all[0], a, b) && !all[0].isBlocked then Some(all[0])
    else FindJoining(all[1..], a, b)
  }

  /** The position of the first unblocked edge joining `a` and `b`, or `|all|` when there is none. */
  function FindJoiningAt(all: seq<Edge>, a: LocId, b: LocId): (r: nat)
    ensures r <= |all|
    ensures r < |all| ==> Joins(all[r], a, b) && !all[r].isBlocked
    ensures forall q :: 0 <= q < r ==> !Joins(all[q], a, b) || all[q].isBlocked
    decreases |all|
  {
    if all == [] then 0
    else if Joins(all[0], a, b) && !all[0].isBlocked then 0
    else 1 + FindJoiningAt(all[1..], a, b)
  }

  /** `find` returns the edge at `FindJoiningAt`: the first match, every earlier edge is blocked or elsewhere. */
  lemma {:induction false} FindJoiningIsFirst(all: seq<Edge>, a: LocId, b: LocId)
    ensures FindJoining(all, a, b) == if FindJoiningAt(all, a, b) == |all| then None else Some(all[FindJoiningAt(all, a, b)])
    decreases |all|
  {
    if all != [] && !(Joins(all[0], a, b) && !all[0].isBlocked) {
      FindJoiningIsFirst(all[1..], a, b);
    }
  }

  /** The edges pushed for the first `n` consecutive pairs of `ns`. */
  function StitchPairs(all: seq<Edge>, ns: seq<LocId>, n: nat): (r: seq<Edge>)
    requires n < |ns|
    ensures |r| <= n
    decreases n
  {
    if n == 0 then []
    else
      var r0 := StitchPairs(all, ns, n - 1);
      match FindJoining(all, ns[n - 1], ns[n])
      case Some(e) => r0 + [e]
      case None => r0
  }

  /** The `for` loop over consecutive pairs: at most one edge per pair. */
  function Stitch(all: seq<Edge>, ns: seq<LocId>): (r: seq<Edge>)
    ensures |ns| > 0 ==> |r| <= |ns| - 1
    ensures |ns| <= 1 ==> r == []
  {
    if |ns| <= 1 then [] else StitchPairs(all, ns, |ns| - 1)
  }

  /**
   * The object `floydWarshall` returns, or how it fails to return one: a
   * TypeError, or a walk longer than the fuel bound (the stand-in for a
   * `while` loop that never ends).
   */
  datatype Outcome = Found(nodes: seq<LocId>, edges: seq<Edge>) | TypeError | WalkTooLong

  /** Relaxation, walk and stitching over seeded matrices. */
  function Compute(seeded: Tables, ids: seq<LocId>, all: seq<Edge>, start: LocId, end: LocId, fuel: nat): Outcome
    requires KeysAgree(seeded)
  {
    match WalkFrom(RelaxAll(seeded, ids, ids), ids, start, end, fuel)
    case Reached(p) => Found(p + [end], Stitch(all, p + [end]))
    case Undefined => Found([], [])
    case NoRow => TypeError
    case OutOfFuel => WalkTooLong
  }

  /** `floydWarshall(startNodeId, endNodeId, blockedEdges)` over a snapshot of the locations and `this.edges`. */
  function RouteAsWritten(rows: seq<Row>, all: seq<Edge>, start: LocId, end: LocId, fuel: nat): Outcome {
    Compute(SeedAsWritten(rows), RowIds(rows), all, start, end, fuel)
  }

  // ---------------------------------------------------------------------
  // The loops of floydWarshall, each proved against its function
  // ---------------------------------------------------------------------

  /** `location.edges.forEach(...)` for one location, after its rows were reset. */
  method SeedRowLoop(t0: Tables, u: LocId, es: seq<Edge>) returns (t: Tables)
    ensures t == SeedRowAsWritten(t0, u, es)
  {
    var distances, nextNodes := t0.dist, t0.next;
    for b := 0 to |es|
      invariant Tables(distances, nextNodes) == SeedRowAsWritten(t0, u, es[..b])
    {
      distances := distances[(u, es[b].node1) := es[b].normalizedWeight];
      nextNodes := nextNodes[(u, es[b].node1) := es[b].node2];
      assert es[..b + 1][..b] == es[..b];
    }
    assert es[..|es|] == es;
    t := Tables(distances, nextNodes);
  }

  /** The seeding `forEach` over the locations. */
  method SeedTables(rows: seq<Row>) returns (t: Tables)
    ensures t == SeedAsWritten(rows)
  {
    t := Tables(map[], map[]);
    for a := 0 to |rows|
      invariant t == SeedAsWritten(rows[..a])
    {
      var u := rows[a].id;
      t := ClearRow(t, u);
      t := SeedRowLoop(t, u, rows[a].edges);
      assert rows[..a + 1][..a] == rows[..a];
    }
    assert rows[..|rows|] == rows;
  }

  /** The innermost `forEach` over `j`. */
  method RelaxRowLoop(t0: Tables, k: LocId, i: LocId, ids: seq<LocId>) returns (t: Tables)
    requires KeysAgree(t0)
    ensures t == RelaxRow(t0, k, i, ids)
  {
    t := t0;
    for c := 0 to |ids|
      invariant t == RelaxRow(t0, k, i, ids[..c])
    {
      t := RelaxCell(t, k, i, ids[c]);
      RelaxRowStep(t0, k, i, ids, c);
    }
    assert ids[..|ids|] == ids;
  }

  /** The body of the innermost `forEach`, on the two matrices. */
  method RelaxCell(t: Tables, k: LocId, i: LocId, j: LocId) returns (r: Tables)
    requires KeysAgree(t)
    ensures r == Step(t, k, i, j)
  {
    var distances, nextNodes := t.dist, t.next;
    if (i, k) in distances && (k, j) in distances
       && ((i, j) !in distances || distances[(i, j)] == 0 || distances[(i, k)] + distances[(k, j)] < distances[(i, j)])
    {
      distances := distances[(i, j) := distances[(i, k)] + distances[(k, j)]];
      nextNodes := nextNodes[(i, j) := nextNodes[(i, k)]];
    }
    r := Tables(distances, nextNodes);
  }

  /** One more column of the `j` loop. */
  lemma RelaxRowStep(t: Tables, k: LocId, i: LocId, ids: seq<LocId>, c: nat)
    requires KeysAgree(t) && c < |ids|
    ensures RelaxRow(t, k, i, ids[..c + 1]) == Step(RelaxRow(t, k, i, ids[..c]), k, i, ids[c])
  {
    assert ids[..c + 1][..c] == ids[..c];
  }

  /** The middle `forEach` over `i`. */
  method RelaxRoundLoop(t0: Tables, k: LocId, ids: seq<LocId>) returns (t: Tables)
    requires KeysAgree(t0)
    ensures t == RelaxRound(t0, k, ids, ids)
  {
    t := t0;
    for b := 0 to |ids|
      invariant t == RelaxRound(t0, k, ids[..b], ids)
    {
      t := RelaxRowLoop(t, k, ids[b], ids);
      assert ids[..b + 1][..b] == ids[..b];
    }
    assert ids[..|ids|] == ids;
  }

  /** The outer `forEach` over `k`. */
  method RelaxTables(t0: Tables, ids: seq<LocId>) returns (t: Tables)
    requires KeysAgree(t0)
    ensures t == RelaxAll(t0, ids, ids)
  {
    t := t0;
    for a := 0 to |ids|
      invariant t == RelaxAll(t0, ids[..a], ids)
    {
      t := RelaxRoundLoop(t, ids[a], ids);
      assert ids[..a + 1][..a] == ids[..a];
    }
    assert ids[..|ids|] == ids;
  }

  /** Prefixes nodes already pushed onto a walk's outcome. */
  function Prefix(p: seq<LocId>, w: Walk): Walk {
    match w
    case Reached(q) => Reached(p + q)
    case other => other
  }

  /** The `while` loop that pushes `currentNode` and follows `nextNodes[currentNode][endNodeId]`. */
  method WalkTables(t: Tables, ids: seq<LocId>, start: LocId, end: LocId, fuel: nat) returns (w: Walk)
    ensures w == WalkFrom(t, ids, start, end, fuel)
  {
    var shortestPath: seq<LocId> := [];
    var currentNode := start;
    var f := fuel;
    while currentNode != end
      invariant Prefix(shortestPath, WalkFrom(t, ids, currentNode, end, f)) == WalkFrom(t, ids, start, end, fuel)
      decreases f
    {
      if f == 0 {
        return OutOfFuel;
      }
      if currentNode !in ids {
        return NoRow;
      }
      if (currentNode, end) !in t.next {
        return Undefined;
      }
      assert shortestPath + ([currentNode] + []) == shortestPath + [currentNode];
      shortestPath := shortestPath + [currentNode];
      currentNode := t.next[(currentNode, end)];
      f := f - 1;
    }
    w := Reached(shortestPath);
  }

  /** The `for` loop that looks up an edge for each consecutive pair of the path. */
  method StitchEdges(all: seq<Edge>, ns: seq<LocId>) returns (pathEdges: seq<Edge>)
    ensures pathEdges == Stitch(all, ns)
  {
    pathEdges := [];
    var i := 0;
    while i < |ns| - 1
      invariant ns == [] ==> i == 0 && pathEdges == []
      invariant ns != [] ==> 0 <= i <= |ns| - 1
      invariant i < |ns| ==> pathEdges == StitchPairs(all, ns, i)
    {
      var edge := FindJoining(all, ns[i], ns[i + 1]);
      if edge.Some? {
        pathEdges := pathEdges + [edge.value];
      }
      assert pathEdges == StitchPairs(all, ns, i + 1);
      i := i + 1;
    }
  }

  /** The body of `floydWarshall` on a snapshot of the locations and `this.edges`. */
  method RouteTables(rows: seq<Row>, all: seq<Edge>, start: LocId, end: LocId, fuel: nat) returns (r: Outcome)
    ensures r == RouteAsWritten(rows, all, start, end, fuel)
  {
    var ids := RowIds(rows);
    var t := SeedTables(rows);
    t := RelaxTables(t, ids);
    var w := WalkTables(t, ids, start, end, fuel);
    match w
    case Reached(p) =>
      var shortestPath := p + [end];
      var pathEdges := StitchEdges(all, shortestPath);
      r := Found(shortestPath, pathEdges);
    case Undefined => r := Found([], []);
    case NoRow => r := TypeError;
    case OutOfFuel => r := WalkTooLong;
  }
}
