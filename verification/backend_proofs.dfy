/**
 * Properties of the backend/app.js router model: what the stitched edge
 * list contains, the shape of a returned path, how relaxation moves the
 * entries, and what the seeding as written does to a single edge compared
 * with seeding keyed on the neighbour.
 */
module BackendProofs {
  import opened Wrappers
  import opened BackendRouting

  // ---------------------------------------------------------------------
  // Edge stitching
  // ---------------------------------------------------------------------

  lemma {:induction false} PairsSound(all: seq<Edge>, ns: seq<LocId>, n: nat)
    requires n < |ns|
    ensures forall e :: e in StitchPairs(all, ns, n) ==>
      e in all && !e.isBlocked && exists s :: 0 <= s < n && Joins(e, ns[s], ns[s + 1])
    decreases n
  {
    if n > 0 {
      PairsSound(all, ns, n - 1);
    }
  }

  /** Every stitched edge is an unblocked edge of `this.edges` joining some consecutive pair of the path. */
  lemma StitchSound(all: seq<Edge>, ns: seq<LocId>)
    ensures forall e :: e in Stitch(all, ns) ==>
      e in all && !e.isBlocked && exists s :: 0 <= s < |ns| - 1 && Joins(e, ns[s], ns[s + 1])
  {
    if |ns| > 1 {
      PairsSound(all, ns, |ns| - 1);
    }
  }

  lemma {:induction false} PairsComplete(all: seq<Edge>, ns: seq<LocId>, n: nat)
    requires n < |ns|
    requires forall s :: 0 <= s < n ==> FindJoining(all, ns[s], ns[s + 1]).Some?
    ensures |StitchPairs(all, ns, n)| == n
    ensures forall s :: 0 <= s < n ==> StitchPairs(all, ns, n)[s] == FindJoining(all, ns[s], ns[s + 1]).value
    decreases n
  {
    if n > 0 {
      PairsComplete(all, ns, n - 1);
    }
  }

  /**
   * When every consecutive pair has an unblocked joining edge, the stitched
   * list has exactly one edge per pair, the first such edge, in path order.
   */
  lemma StitchComplete(all: seq<Edge>, ns: seq<LocId>)
    requires |ns| > 0
    requires forall s :: 0 <= s < |ns| - 1 ==> FindJoining(all, ns[s], ns[s + 1]).Some?
    ensures |Stitch(all, ns)| == |ns| - 1
    ensures forall s :: 0 <= s < |ns| - 1 ==>
      Stitch(all, ns)[s] == FindJoining(all, ns[s], ns[s + 1]).value && Joins(Stitch(all, ns)[s], ns[s], ns[s + 1])
  {
    if |ns| > 1 {
      PairsComplete(all, ns, |ns| - 1);
    }
  }

  // ---------------------------------------------------------------------
  // The walk
  // ---------------------------------------------------------------------

  /** The hop taken after stop `s` of a walk `p` towards `end`. */
  function After(p: seq<LocId>, s: nat, end: LocId): LocId
    requires s < |p|
  {
    if s + 1 < |p| then p[s + 1] else end
  }

  /**
   * A walk that reaches `end` visits `start` first, only location ids other
   * than `end`, and each next stop is `nextNodes[stop][endNodeId]`.
   */
  lemma {:induction false} WalkShape(t: Tables, ids: seq<LocId>, start: LocId, end: LocId, fuel: nat)
    ensures match WalkFrom(t, ids, start, end, fuel)
      case Reached(p) =>
        && (p == [] <==> start == end)
        && (p != [] ==> p[0] == start)
        && (forall s :: 0 <= s < |p| ==> p[s] in ids && p[s] != end)
        && (forall s :: 0 <= s < |p| ==> (p[s], end) in t.next && t.next[(p[s], end)] == After(p, s, end))
      case _ => true
    decreases fuel
  {
    if start != end && fuel > 0 && start in ids && (start, end) in t.next {
      var v := t.next[(start, end)];
      WalkShape(t, ids, v, end, fuel - 1);
      var w := WalkFrom(t, ids, v, end, fuel - 1);
      if w.Reached? {
        var p := [start] + w.path;
        assert WalkFrom(t, ids, start, end, fuel) == Reached(p);
        forall s | 0 <= s < |p|
          ensures p[s] in ids && p[s] != end
          ensures (p[s], end) in t.next && t.next[(p[s], end)] == After(p, s, end)
        {
          if s > 0 {
            assert p[s] == w.path[s - 1];
            assert After(p, s, end) == After(w.path, s - 1, end);
          } else if w.path != [] {
            assert After(p, 0, end) == w.path[0];
          }
        }
      }
    }
  }

  /** A row whose hop towards `end` points back at itself never lets the walk finish. */
  lemma {:induction false} SelfHopDiverges(t: Tables, ids: seq<LocId>, u: LocId, end: LocId, fuel: nat)
    requires u != end && u in ids && (u, end) in t.next && t.next[(u, end)] == u
    ensures WalkFrom(t, ids, u, end, fuel) == OutOfFuel
    decreases fuel
  {
    if fuel > 0 {
      SelfHopDiverges(t, ids, u, end, fuel - 1);
    }
  }

  /** More fuel does not change a walk that finished within less. */
  lemma {:induction false} FuelSuffices(t: Tables, ids: seq<LocId>, cur: LocId, end: LocId, fuel: nat, more: nat)
    requires fuel <= more
    requires WalkFrom(t, ids, cur, end, fuel) != OutOfFuel
    ensures WalkFrom(t, ids, cur, end, more) == WalkFrom(t, ids, cur, end, fuel)
    decreases fuel
  {
    if cur != end && cur in ids && (cur, end) in t.next {
      FuelSuffices(t, ids, t.next[(cur, end)], end, fuel - 1, more - 1);
    }
  }

  // ---------------------------------------------------------------------
  // The result object
  // ---------------------------------------------------------------------

  /**
   * A returned object is either `{nodes: [], edges: []}`, exactly when the
   * walk met an undefined hop, or a path from `start` to `end` along
   * `nextNodes` with at most one unblocked joining edge per step.
   */
  lemma ComputeShape(seeded: Tables, ids: seq<LocId>, all: seq<Edge>, start: LocId, end: LocId, fuel: nat)
    requires KeysAgree(seeded)
    ensures var t := RelaxAll(seeded, ids, ids);
      match Compute(seeded, ids, all, start, end, fuel)
      case Found(ns, es) =>
        && (ns == [] <==> WalkFrom(t, ids, start, end, fuel) == Undefined)
        && (ns == [] ==> es == [])
        && (ns != [] ==>
             && ns[0] == start && ns[|ns| - 1] == end
             && (forall s :: 0 <= s < |ns| - 1 ==> (ns[s], end) in t.next && t.next[(ns[s], end)] == ns[s + 1])
             && |es| <= |ns| - 1
             && (forall e :: e in es ==> e in all && !e.isBlocked && exists s :: 0 <= s < |ns| - 1 && Joins(e, ns[s], ns[s + 1])))
      case TypeError => WalkFrom(t, ids, start, end, fuel) == NoRow
      case WalkTooLong => WalkFrom(t, ids, start, end, fuel) == OutOfFuel
  {
    var t := RelaxAll(seeded, ids, ids);
    WalkShape(t, ids, start, end, fuel);
    var w := WalkFrom(t, ids, start, end, fuel);
    if w.Reached? {
      var ns := w.path + [end];
      StitchSound(all, ns);
      forall s | 0 <= s < |ns| - 1
        ensures (ns[s], end) in t.next && t.next[(ns[s], end)] == ns[s + 1]
      {
        assert ns[s] == w.path[s] && After(w.path, s, end) == ns[s + 1];
      }
      if w.path == [] {
        assert ns[0] == start;
      }
    }
  }

  /** When start and end coincide the result is that node alone, with no edges. */
  lemma ComputeToSelf(seeded: Tables, ids: seq<LocId>, all: seq<Edge>, start: LocId, fuel: nat)
    requires KeysAgree(seeded)
    ensures Compute(seeded, ids, all, start, start, fuel) == Found([start], [])
  {
  }

  /** A start id with no location throws at `nextNodes[currentNode][endNodeId]` unless it is already the end. */
  lemma ComputeUnknownStart(seeded: Tables, ids: seq<LocId>, all: seq<Edge>, start: LocId, end: LocId, fuel: nat)
    requires KeysAgree(seeded) && start != end && start !in ids && fuel > 0
    ensures Compute(seeded, ids, all, start, end, fuel) == TypeError
  {
  }

  // ---------------------------------------------------------------------
  // Relaxation with positive weights
  // ---------------------------------------------------------------------

  /** Every defined distance is positive, so `!distances[i][j]` only means `undefined`. */
  predicate Positive(t: Tables) {
    forall p :: p in t.dist ==> t.dist[p] > 0
  }

  /** No defined entry got larger from `t` to `r`. */
  predicate NoIncrease(t: Tables, r: Tables)
    requires t.dist.Keys <= r.dist.Keys
  {
    forall p :: p in t.dist ==> r.dist[p] <= t.dist[p]
  }

  lemma {:induction false} RowPositive(t: Tables, k: LocId, i: LocId, js: seq<LocId>)
    requires KeysAgree(t) && Positive(t)
    ensures Positive(RelaxRow(t, k, i, js)) && NoIncrease(t, RelaxRow(t, k, i, js))
    decreases |js|
  {
    if js != [] {
      RowPositive(t, k, i, js[..|js| - 1]);
    }
  }

  lemma {:induction false} RoundPositive(t: Tables, k: LocId, srcs: seq<LocId>, ids: seq<LocId>)
    requires KeysAgree(t) && Positive(t)
    ensures Positive(RelaxRound(t, k, srcs, ids)) && NoIncrease(t, RelaxRound(t, k, srcs, ids))
    decreases |srcs|
  {
    if srcs != [] {
      var r0 := RelaxRound(t, k, srcs[..|srcs| - 1], ids);
      RoundPositive(t, k, srcs[..|srcs| - 1], ids);
      RowPositive(r0, k, srcs[|srcs| - 1], ids);
    }
  }

  /**
   * With positive weights the triple loop keeps every entry positive and
   * never raises one: each write is a defined sum that is strictly smaller
   * or fills an undefined entry.
   */
  lemma {:induction false} RelaxPositive(t: Tables, ks: seq<LocId>, ids: seq<LocId>)
    requires KeysAgree(t) && Positive(t)
    ensures Positive(RelaxAll(t, ks, ids)) && NoIncrease(t, RelaxAll(t, ks, ids))
    decreases |ks|
  {
    if ks != [] {
      var r0 := RelaxAll(t, ks[..|ks| - 1], ids);
      RelaxPositive(t, ks[..|ks| - 1], ids);
      RoundPositive(r0, ks[|ks| - 1], ids, ids);
    }
  }

  /** Seeding as written stores only edge weights, so positive weights give positive seeded entries. */
  lemma SeedPositive(rows: seq<Row>)
    requires forall r, e :: r in rows && e in r.edges ==> e.normalizedWeight > 0
    ensures Positive(SeedAsWritten(rows))
  {
    var t := SeedAsWritten(rows);
    forall p | p in t.dist ensures t.dist[p] > 0 {
      var row := LastRow(rows, p.0).value;
      assert LastFrom(row.edges, p.1).value in row.edges;
    }
  }
}
