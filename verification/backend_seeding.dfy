/**
 * The seeding loop of `Solution.floydWarshall` (backend/app.js:84-87) keys
 * each entry on `edge.node1` and stores `edge.node2` as the hop, whatever
 * side of the edge the location is on. For the second endpoint of an edge
 * that makes the hop point back at the location itself, and for the first
 * endpoint it fills the diagonal instead of the neighbour's column.
 *
 * This module shows the effect on a single edge, and proves for seeding
 * keyed on the neighbour, which is what the loop evidently means, that
 * every hop is joined by an edge so that every returned path carries one
 * edge per step.
 */
module BackendSeeding {
  import opened Wrappers
  import opened BackendRouting
  import opened BackendProofs

  // ---------------------------------------------------------------------
  // Seeding keyed on the neighbour
  // ---------------------------------------------------------------------

  /** The endpoint of `e` other than `u` (`u` itself for a self-loop). */
  function Neighbour(e: Edge, u: LocId): LocId {
    if e.node1 == u then e.node2 else e.node1
  }

  /** The last edge of `es` whose neighbour of `u` is `x`. */
  function LastTo(es: seq<Edge>, u: LocId, x: LocId): (r: Option<Edge>)
    ensures r.Some? ==> r.value in es && Neighbour(r.value, u) == x
    ensures r.None? <==> forall e :: e in es ==> Neighbour(e, u) != x
    decreases |es|
  {
    if es == [] then None
    else if Neighbour(es[|es| - 1], u) == x then Some(es[|es| - 1])
    else LastTo(es[..|es| - 1], u, x)
  }

  /** The position of the last edge of `es` whose neighbour of `u` is `x`, or -1 when there is none. */
  function LastToAt(es: seq<Edge>, u: LocId, x: LocId): (r: int)
    ensures -1 <= r < |es|
    ensures r >= 0 ==> Neighbour(es[r], u) == x
    ensures forall q :: r < q < |es| ==> Neighbour(es[q], u) != x
    decreases |es|
  {
    if es == [] then -1
    else if Neighbour(es[|es| - 1], u) == x then |es| - 1
    else LastToAt(es[..|es| - 1], u, x)
  }

  /** `LastTo` returns the edge at `LastToAt`: the last one, no later edge leads from `u` to `x`. */
  lemma {:induction false} LastToIsLast(es: seq<Edge>, u: LocId, x: LocId)
    ensures LastTo(es, u, x) == if LastToAt(es, u, x) < 0 then None else Some(es[LastToAt(es, u, x)])
    decreases |es|
  {
    if es != [] && Neighbour(es[|es| - 1], u) != x {
      LastToIsLast(es[..|es| - 1], u, x);
    }
  }

  /** `distances[u][v] = edge.normalized_weight; nextNodes[u][v] = v` with `v` the neighbour. */
  function SeedRowNeighbours(t: Tables, u: LocId, es: seq<Edge>): (r: Tables)
    ensures forall p :: p in r.dist <==> p in t.dist || (p.0 == u && LastTo(es, u, p.1).Some?)
    ensures forall p :: p in r.next <==> p in t.next || (p.0 == u && LastTo(es, u, p.1).Some?)
    ensures forall p :: p in r.dist ==>
      r.dist[p] == if p.0 == u && LastTo(es, u, p.1).Some? then LastTo(es, u, p.1).value.normalizedWeight else t.dist[p]
    ensures forall p :: p in r.next ==>
      r.next[p] == if p.0 == u && LastTo(es, u, p.1).Some? then p.1 else t.next[p]
    decreases |es|
  {
    if es == [] then t
    else
      var r0 := SeedRowNeighbours(t, u, es[..|es| - 1]);
      var v := Neighbour(es[|es| - 1], u);
      Tables(r0.dist[(u, v) := es[|es| - 1].normalizedWeight], r0.next[(u, v) := v])
  }

  /**
   * Seeding keyed on the neighbour: entry (u, v) exists exactly when the last
   * location with id `u` has an edge to `v`, and its hop is `v` itself.
   */
  function SeedNeighbours(rows: seq<Row>): (r: Tables)
    ensures KeysAgree(r)
    ensures forall p :: p in r.dist <==> LastRow(rows, p.0).Some? && LastTo(LastRow(rows, p.0).value.edges, p.0, p.1).Some?
    ensures forall p :: p in r.dist ==>
      && r.dist[p] == LastTo(LastRow(rows, p.0).value.edges, p.0, p.1).value.normalizedWeight
      && r.next[p] == p.1
    decreases |rows|
  {
    if rows == [] then Tables(map[], map[])
    else
      var row := rows[|rows| - 1];
      SeedRowNeighbours(ClearRow(SeedNeighbours(rows[..|rows| - 1]), row.id), row.id, row.edges)
  }

  /** `floydWarshall` with the seeding keyed on the neighbour. */
  function RouteNeighbours(rows: seq<Row>, all: seq<Edge>, start: LocId, end: LocId, fuel: nat): Outcome {
    Compute(SeedNeighbours(rows), RowIds(rows), all, start, end, fuel)
  }

  // ---------------------------------------------------------------------
  // Every hop is joined by an edge
  // ---------------------------------------------------------------------

  /** No edge is blocked: the `Edge` constructor sets `is_blocked` to false and nothing else writes it. */
  predicate Open(all: seq<Edge>) {
    forall e :: e in all ==> !e.isBlocked
  }

  /** Each hop `nextNodes[u][v]` is joined to `u` by an unblocked edge of `this.edges`. */
  predicate HopsJoin(t: Tables, all: seq<Edge>) {
    forall p :: p in t.next ==> FindJoining(all, p.0, t.next[p]).Some?
  }

  lemma SeedNeighboursJoin(rows: seq<Row>, all: seq<Edge>)
    requires RowsValid(rows, all) && Open(all)
    ensures HopsJoin(SeedNeighbours(rows), all)
  {
    var t := SeedNeighbours(rows);
    forall p | p in t.next ensures FindJoining(all, p.0, t.next[p]).Some? {
      var row := LastRow(rows, p.0).value;
      var e := LastTo(row.edges, p.0, p.1).value;
      assert e in row.edges && e in all && Joins(e, p.0, p.1);
    }
  }

  lemma {:induction false} RowJoin(t: Tables, k: LocId, i: LocId, js: seq<LocId>, all: seq<Edge>)
    requires KeysAgree(t) && HopsJoin(t, all)
    ensures HopsJoin(RelaxRow(t, k, i, js), all)
    decreases |js|
  {
    if js != [] {
      RowJoin(t, k, i, js[..|js| - 1], all);
    }
  }

  lemma {:induction false} RoundJoin(t: Tables, k: LocId, srcs: seq<LocId>, ids: seq<LocId>, all: seq<Edge>)
    requires KeysAgree(t) && HopsJoin(t, all)
    ensures HopsJoin(RelaxRound(t, k, srcs, ids), all)
    decreases |srcs|
  {
    if srcs != [] {
      RoundJoin(t, k, srcs[..|srcs| - 1], ids, all);
      RowJoin(RelaxRound(t, k, srcs[..|srcs| - 1], ids), k, srcs[|srcs| - 1], ids, all);
    }
  }

  /** Relaxation copies `nextNodes[i][k]` into row `i` only, so joined hops stay joined. */
  lemma {:induction false} RelaxJoin(t: Tables, ks: seq<LocId>, ids: seq<LocId>, all: seq<Edge>)
    requires KeysAgree(t) && HopsJoin(t, all)
    ensures HopsJoin(RelaxAll(t, ks, ids), all)
    decreases |ks|
  {
    if ks != [] {
      RelaxJoin(t, ks[..|ks| - 1], ids, all);
      RoundJoin(RelaxAll(t, ks[..|ks| - 1], ids), ks[|ks| - 1], ids, ids, all);
    }
  }

  /**
   * With seeding keyed on the neighbour, a valid solution and no blocked
   * edge, every non-empty returned path has exactly one edge per step, and
   * edge `s` joins node `s` to node `s + 1`.
   */
  lemma NeighbourPathsJoined(rows: seq<Row>, all: seq<Edge>, start: LocId, end: LocId, fuel: nat)
    requires RowsValid(rows, all) && Open(all)
    ensures match RouteNeighbours(rows, all, start, end, fuel)
      case Found(ns, es) =>
        ns != [] ==> |es| == |ns| - 1 && forall s :: 0 <= s < |es| ==> Joins(es[s], ns[s], ns[s + 1])
      case _ => true
  {
    var seeded, ids := SeedNeighbours(rows), RowIds(rows);
    SeedNeighboursJoin(rows, all);
    RelaxJoin(seeded, ids, ids, all);
    ComputeShape(seeded, ids, all, start, end, fuel);
    var r := Compute(seeded, ids, all, start, end, fuel);
    if r.Found? && r.nodes != [] {
      var t := RelaxAll(seeded, ids, ids);
      forall s | 0 <= s < |r.nodes| - 1 ensures FindJoining(all, r.nodes[s], r.nodes[s + 1]).Some? {
        assert (r.nodes[s], end) in t.next && t.next[(r.nodes[s], end)] == r.nodes[s + 1];
      }
      StitchComplete(all, r.nodes);
    }
  }

  // ---------------------------------------------------------------------
  // One edge between two locations
  // ---------------------------------------------------------------------

  /** An edge from location 1 to location 2. */
  const Road := Edge("112", "Main Street", 1, 2, 0.00005, 5, false)

  /** What `addLocation` for ids 1 and 2 followed by `addEdge(Road)` leaves in the locations. */
  function TwoLocations(): seq<Row> {
    [Row(1, [Road]), Row(2, [Road])]
  }

  /** If no single step changes the matrices, the whole triple loop leaves them as they are. */
  lemma {:induction false} StableRow(t: Tables, k: LocId, i: LocId, js: seq<LocId>)
    requires KeysAgree(t) && forall j :: j in js ==> Step(t, k, i, j) == t
    ensures RelaxRow(t, k, i, js) == t
    decreases |js|
  {
    if js != [] {
      StableRow(t, k, i, js[..|js| - 1]);
    }
  }

  lemma {:induction false} StableRound(t: Tables, k: LocId, srcs: seq<LocId>, ids: seq<LocId>)
    requires KeysAgree(t) && forall i, j :: i in srcs && j in ids ==> Step(t, k, i, j) == t
    ensures RelaxRound(t, k, srcs, ids) == t
    decreases |srcs|
  {
    if srcs != [] {
      StableRound(t, k, srcs[..|srcs| - 1], ids);
      StableRow(t, k, srcs[|srcs| - 1], ids);
    }
  }

  lemma {:induction false} StableAll(t: Tables, ks: seq<LocId>, ids: seq<LocId>)
    requires KeysAgree(t) && forall k, i, j :: k in ks && i in ids && j in ids ==> Step(t, k, i, j) == t
    ensures RelaxAll(t, ks, ids) == t
    decreases |ks|
  {
    if ks != [] {
      StableAll(t, ks[..|ks| - 1], ids);
      StableRound(t, ks[|ks| - 1], ids, ids);
    }
  }

  /** Seeding as written for the two locations: entries (1, 1) and (2, 1), both with hop 2. */
  lemma AsWrittenSeed()
    ensures SeedAsWritten(TwoLocations()) == Tables(map[(1, 1) := 5, (2, 1) := 5], map[(1, 1) := 2, (2, 1) := 2])
  {
    var rows := TwoLocations();
    assert rows[..1] == [Row(1, [Road])];
    var t1 := Tables(map[(1, 1) := 5], map[(1, 1) := 2]);
    AsWrittenFirstRow(t1);
    assert ClearRow(t1, 2) == t1;
    assert SeedAsWritten(rows) == SeedRowAsWritten(t1, 2, [Road]);
  }

  /** The first location alone seeds `(1, 1)` with hop 2. */
  lemma AsWrittenFirstRow(t1: Tables)
    requires t1 == Tables(map[(1, 1) := 5], map[(1, 1) := 2])
    ensures SeedAsWritten([Row(1, [Road])]) == t1
  {
    var empty := Tables(map[], map[]);
    assert [Row(1, [Road])][..0] == [];
    assert ClearRow(empty, 1) == empty;
    assert SeedRowAsWritten(empty, 1, [Road]) == t1;
  }

  /** The relaxation, walk and stitching over the as-written seeding of `Road`. */
  lemma AsWrittenRoutes(t: Tables, ids: seq<LocId>, fuel: nat)
    requires t == Tables(map[(1, 1) := 5, (2, 1) := 5], map[(1, 1) := 2, (2, 1) := 2])
    requires ids == [1, 2] && fuel > 0
    ensures Compute(t, ids, [Road], 1, 2, fuel) == Found([], [])
    ensures Compute(t, ids, [Road], 2, 1, fuel) == WalkTooLong
  {
    AsWrittenStable(t, ids);
    assert WalkFrom(t, ids, 1, 2, fuel) == Undefined;
    SelfHopDiverges(t, ids, 2, 1, fuel);
  }

  /** No relaxation step changes the as-written seeding of `Road`. */
  lemma AsWrittenStable(t: Tables, ids: seq<LocId>)
    requires t == Tables(map[(1, 1) := 5, (2, 1) := 5], map[(1, 1) := 2, (2, 1) := 2])
    requires ids == [1, 2]
    ensures RelaxAll(t, ids, ids) == t
  {
    forall k, i, j | k in ids && i in ids && j in ids ensures Step(t, k, i, j) == t {
    }
    StableAll(t, ids, ids);
  }

  /** The loops visit ids 1 and 2. */
  lemma TwoIds()
    ensures RowIds(TwoLocations()) == [1, 2]
  {
  }

  /**
   * As written, the single edge 1 -> 2 seeds only `distances[1][1]` and
   * `distances[2][1]`, the latter with hop 2: the route from 1 to 2 comes
   * back empty and the route from 2 to 1 never ends.
   */
  lemma AsWrittenSingleEdge(fuel: nat)
    requires fuel > 0
    ensures RouteAsWritten(TwoLocations(), [Road], 1, 2, fuel) == Found([], [])
    ensures RouteAsWritten(TwoLocations(), [Road], 2, 1, fuel) == WalkTooLong
  {
    AsWrittenSeed();
    TwoIds();
    AsWrittenRoutes(SeedAsWritten(TwoLocations()), RowIds(TwoLocations()), fuel);
  }

  /** Seeding keyed on the neighbour for the two locations: entries (1, 2) with hop 2 and (2, 1) with hop 1. */
  lemma NeighbourSeed()
    ensures SeedNeighbours(TwoLocations()) == Tables(map[(1, 2) := 5, (2, 1) := 5], map[(1, 2) := 2, (2, 1) := 1])
  {
    var rows := TwoLocations();
    assert rows[..1] == [Row(1, [Road])] && rows[..1][..0] == [];
    var empty := Tables(map[], map[]);
    assert ClearRow(empty, 1) == empty;
    var t1 := SeedNeighbours(rows[..1]);
    assert t1 == SeedRowNeighbours(empty, 1, [Road]);
    assert t1 == Tables(map[(1, 2) := 5], map[(1, 2) := 2]);
    assert ClearRow(t1, 2) == t1;
    assert SeedNeighbours(rows) == SeedRowNeighbours(t1, 2, [Road]);
  }

  /** A hop straight to the end is a walk of one step, and the route is that pair. */
  lemma DirectRoute(seeded: Tables, ids: seq<LocId>, all: seq<Edge>, u: LocId, v: LocId, fuel: nat)
    requires KeysAgree(seeded) && u != v && fuel > 0 && u in ids
    requires (u, v) in RelaxAll(seeded, ids, ids).next && RelaxAll(seeded, ids, ids).next[(u, v)] == v
    ensures Compute(seeded, ids, all, u, v, fuel) == Found([u, v], Stitch(all, [u, v]))
  {
    var t := RelaxAll(seeded, ids, ids);
    assert WalkFrom(t, ids, v, v, fuel - 1) == Reached([]);
    assert WalkFrom(t, ids, u, v, fuel) == Reached([u]);
    assert [u] + [v] == [u, v];
  }

  /** `Road` is the one unblocked edge joining 1 and 2, in either direction. */
  lemma StitchRoad()
    ensures Stitch([Road], [1, 2]) == [Road]
    ensures Stitch([Road], [2, 1]) == [Road]
  {
    assert Joins(Road, 1, 2) && Joins(Road, 2, 1);
  }

  /** The walk and stitching once the relaxed tables hop straight across `Road`. */
  lemma NeighbourRoutes(t: Tables, ids: seq<LocId>, fuel: nat)
    requires KeysAgree(t) && ids == [1, 2] && fuel > 0
    requires (1, 2) in RelaxAll(t, ids, ids).next && RelaxAll(t, ids, ids).next[(1, 2)] == 2
    requires (2, 1) in RelaxAll(t, ids, ids).next && RelaxAll(t, ids, ids).next[(2, 1)] == 1
    ensures Compute(t, ids, [Road], 1, 2, fuel) == Found([1, 2], [Road])
    ensures Compute(t, ids, [Road], 2, 1, fuel) == Found([2, 1], [Road])
  {
    DirectRoute(t, ids, [Road], 1, 2, fuel);
    DirectRoute(t, ids, [Road], 2, 1, fuel);
    StitchRoad();
  }

  /** Keyed on the neighbour, the same edge yields the path with that edge in both directions. */
  lemma NeighbourSingleEdge(fuel: nat)
    requires fuel > 0
    ensures RouteNeighbours(TwoLocations(), [Road], 1, 2, fuel) == Found([1, 2], [Road])
    ensures RouteNeighbours(TwoLocations(), [Road], 2, 1, fuel) == Found([2, 1], [Road])
  {
    NeighbourSeed();
    TwoIds();
    var t := SeedNeighbours(TwoLocations());
    NeighbourRelaxation(t, Tables(map[(1, 2) := 5, (2, 1) := 5, (2, 2) := 10, (1, 1) := 10],
                                  map[(1, 2) := 2, (2, 1) := 1, (2, 2) := 1, (1, 1) := 2]));
    NeighbourRoutes(t, RowIds(TwoLocations()), fuel);
  }

  /** A `j` loop over two columns is two steps. */
  lemma RowOfTwo(t: Tables, k: LocId, i: LocId, a: LocId, b: LocId)
    requires KeysAgree(t)
    ensures RelaxRow(t, k, i, [a, b]) == Step(Step(t, k, i, a), k, i, b)
  {
    assert [a, b][..1] == [a] && [a][..0] == [];
    assert RelaxRow(t, k, i, [a]) == Step(t, k, i, a);
  }

  /** An `i` loop over two rows is two `j` loops. */
  lemma RoundOfTwo(t: Tables, k: LocId, a: LocId, b: LocId, ids: seq<LocId>)
    requires KeysAgree(t)
    ensures RelaxRound(t, k, [a, b], ids) == RelaxRow(RelaxRow(t, k, a, ids), k, b, ids)
  {
    assert [a, b][..1] == [a] && [a][..0] == [];
    assert RelaxRound(t, k, [a], ids) == RelaxRow(t, k, a, ids);
  }

  /** A `k` loop over two relays is two rounds. */
  lemma AllOfTwo(t: Tables, a: LocId, b: LocId, ids: seq<LocId>)
    requires KeysAgree(t)
    ensures RelaxAll(t, [a, b], ids) == RelaxRound(RelaxRound(t, a, ids, ids), b, ids, ids)
  {
    assert [a, b][..1] == [a] && [a][..0] == [];
    assert RelaxAll(t, [a], ids) == RelaxRound(t, a, ids, ids);
  }

  /** Round `k = 1` on the neighbour-keyed seeding of `Road`: only `(2, 2)` is filled in, via 1. */
  lemma NeighbourRoundOne(t: Tables, t1: Tables)
    requires t == Tables(map[(1, 2) := 5, (2, 1) := 5], map[(1, 2) := 2, (2, 1) := 1])
    requires t1 == Tables(map[(1, 2) := 5, (2, 1) := 5, (2, 2) := 10], map[(1, 2) := 2, (2, 1) := 1, (2, 2) := 1])
    ensures RelaxRound(t, 1, [1, 2], [1, 2]) == t1
  {
    RoundOfTwo(t, 1, 1, 2, [1, 2]);
    NeighbourRoundOneFirstRow(t);
    NeighbourRoundOneSecondRow(t, t1);
  }

  /** Row `i = 1` of round `k = 1` changes nothing. */
  lemma NeighbourRoundOneFirstRow(t: Tables)
    requires t == Tables(map[(1, 2) := 5, (2, 1) := 5], map[(1, 2) := 2, (2, 1) := 1])
    ensures RelaxRow(t, 1, 1, [1, 2]) == t
  {
    RowOfTwo(t, 1, 1, 1, 2);
    assert Step(t, 1, 1, 1) == t && Step(t, 1, 1, 2) == t;
  }

  /** Row `i = 2` of round `k = 1` fills in `(2, 2)` through 1. */
  lemma NeighbourRoundOneSecondRow(t: Tables, t1: Tables)
    requires t == Tables(map[(1, 2) := 5, (2, 1) := 5], map[(1, 2) := 2, (2, 1) := 1])
    requires t1 == Tables(map[(1, 2) := 5, (2, 1) := 5, (2, 2) := 10], map[(1, 2) := 2, (2, 1) := 1, (2, 2) := 1])
    ensures RelaxRow(t, 1, 2, [1, 2]) == t1
  {
    RowOfTwo(t, 1, 2, 1, 2);
    assert Step(t, 1, 2, 1) == t;
    assert Step(t, 1, 2, 2) == t1;
  }

  /** Round `k = 2`: only `(1, 1)` is filled in, via 2. */
  lemma NeighbourRoundTwo(t1: Tables, relaxed: Tables)
    requires t1 == Tables(map[(1, 2) := 5, (2, 1) := 5, (2, 2) := 10], map[(1, 2) := 2, (2, 1) := 1, (2, 2) := 1])
    requires relaxed == Tables(map[(1, 2) := 5, (2, 1) := 5, (2, 2) := 10, (1, 1) := 10],
                               map[(1, 2) := 2, (2, 1) := 1, (2, 2) := 1, (1, 1) := 2])
    ensures RelaxRound(t1, 2, [1, 2], [1, 2]) == relaxed
  {
    RoundOfTwo(t1, 2, 1, 2, [1, 2]);
    RowOfTwo(t1, 2, 1, 1, 2);
    assert Step(t1, 2, 1, 1) == relaxed;
    assert Step(relaxed, 2, 1, 2) == relaxed;
    RowOfTwo(relaxed, 2, 2, 1, 2);
    assert Step(relaxed, 2, 2, 1) == relaxed && Step(relaxed, 2, 2, 2) == relaxed;
  }

  /** The triple loop over ids [1, 2] on the neighbour-keyed seeding of `Road`. */
  lemma NeighbourRelaxation(t: Tables, relaxed: Tables)
    requires t == Tables(map[(1, 2) := 5, (2, 1) := 5], map[(1, 2) := 2, (2, 1) := 1])
    requires relaxed == Tables(map[(1, 2) := 5, (2, 1) := 5, (2, 2) := 10, (1, 1) := 10],
                               map[(1, 2) := 2, (2, 1) := 1, (2, 2) := 1, (1, 1) := 2])
    ensures RelaxAll(t, [1, 2], [1, 2]) == relaxed
  {
    var t1 := Tables(map[(1, 2) := 5, (2, 1) := 5, (2, 2) := 10], map[(1, 2) := 2, (2, 1) := 1, (2, 2) := 1]);
    AllOfTwo(t, 1, 2, [1, 2]);
    NeighbourRoundOne(t, t1);
    NeighbourRoundTwo(t1, relaxed);
  }
}
