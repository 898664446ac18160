/**
 * The `Location` and `Solution` classes of backend/app.js: locations with
 * their attached edge lists, the global edge list, `addEdge`, the
 * `floydWarshall` entry point and the nearest-location scan of the
 * `/locations` handler.
 */
module BackendGraph {
  import opened Wrappers
  import opened BackendRouting

  /** A location from nodes.csv and the edges attached to it. */
  class Location {
    const id: LocId
    const lat: real
    const lon: real
    const trafficSignals: bool
    const stop: bool
    var edges: seq<Edge>

    constructor (id: LocId, lat: real, lon: real, trafficSignals: bool, stop: bool)
      ensures this.id == id && this.lat == lat && this.lon == lon
      ensures this.trafficSignals == trafficSignals && this.stop == stop
      ensures edges == []
    {
      this.id := id;
      this.lat := lat;
      this.lon := lon;
      this.trafficSignals := trafficSignals;
      this.stop := stop;
      edges := [];
    }

    /** `addEdge(edge)`: push onto this location's list. */
    method AddEdge(edge: Edge)
      modifies this
      ensures edges == old(edges) + [edge]
    {
      edges := edges + [edge];
    }

    /**
     * `calculateDistance(lat, lon)`. `haversine` stands for the great-circle
     * formula on the location's and the query's coordinates; only the
     * exact-equality short-circuit is computed here.
     */
    function CalculateDistance(lat: real, lon: real, haversine: (real, real, real, real) -> real): (d: real)
      requires forall a, b, c, e :: haversine(a, b, c, e) >= 0.0
      ensures this.lat == lat && this.lon == lon ==> d == 0.0
      ensures d >= 0.0
      ensures !(this.lat == lat && this.lon == lon) ==> d == haversine(this.lat, this.lon, lat, lon)
    {
      if this.lat == lat && this.lon == lon then 0.0 else haversine(this.lat, this.lon, lat, lon)
    }
  }

  /** `this.locations.find((location) => location.id === id)`. */
  function FindLocation(ls: seq<Location>, id: LocId): (r: Option<Location>)
    ensures r.Some? ==> r.value in ls && r.value.id == id
    ensures r.None? <==> forall l :: l in ls ==> l.id != id
    ensures r.Some? ==> exists s :: 0 <= s < |ls| && ls[s] == r.value && forall q :: 0 <= q < s ==> ls[q].id != id
    decreases |ls|
  {
    if ls == [] then None
    else if ls[0].id == id then Some(ls[0])
    else FindLocation(ls[1..], id)
  }

  /** The copies of `edge` that `Solution.addEdge` pushes onto location `l`. */
  function Attached(l: Location, edge: Edge, ls: seq<Location>): seq<Edge> {
    var node1, node2 := FindLocation(ls, edge.node1), FindLocation(ls, edge.node2);
    if node1.Some? && node2.Some? then
      (if l == node1.value then [edge] else []) + (if l == node2.value then [edge] else [])
    else []
  }

  /** What `floydWarshall` reads from each location, in order. */
  function RowsOf(ls: seq<Location>): (rows: seq<Row>)
    reads ls
    ensures |rows| == |ls|
    ensures forall s :: 0 <= s < |ls| ==> rows[s] == Row(ls[s].id, ls[s].edges)
    decreases |ls|
  {
    if ls == [] then [] else RowsOf(ls[..|ls| - 1]) + [Row(ls[|ls| - 1].id, ls[|ls| - 1].edges)]
  }

  class Solution {
    var locations: seq<Location>
    var edges: seq<Edge>

    constructor ()
      ensures locations == [] && edges == []
      ensures Valid()
    {
      locations := [];
      edges := [];
    }

    /** Every edge attached to a location has that location as an endpoint and is in `this.edges`. */
    ghost predicate Valid()
      reads this, locations
    {
      forall l, e :: l in locations && e in l.edges ==> e in edges && (e.node1 == l.id || e.node2 == l.id)
    }

    /** A valid solution hands `floydWarshall` rows whose edges are edges of `this.edges` ending at the row's location. */
    lemma ValidRows()
      requires Valid()
      ensures RowsValid(RowsOf(locations), edges)
    {
      var rows := RowsOf(locations);
      forall r, e | r in rows && e in r.edges ensures e in edges && (e.node1 == r.id || e.node2 == r.id) {
        var s :| 0 <= s < |rows| && rows[s] == r;
        assert locations[s] in locations && e in locations[s].edges;
      }
    }

    /** `addLocation(location)`; a freshly constructed location keeps the solution valid. */
    method AddLocation(location: Location)
      modifies this
      ensures locations == old(locations) + [location] && edges == old(edges)
      ensures old(Valid()) && location.edges == [] ==> Valid()
    {
      locations := locations + [location];
    }

    /**
     * `addEdge(edge)`: the edge always joins `this.edges`; it is attached to
     * the first location with id `node1` and the first with id `node2` when
     * both exist (twice to one location for a self-loop), and to none
     * otherwise.
     */
    method AddEdge(edge: Edge)
      modifies this, locations
      ensures edges == old(edges) + [edge]
      ensures locations == old(locations)
      ensures forall l :: l in locations ==> l.edges == old(l.edges) + Attached(l, edge, locations)
      ensures old(Valid()) ==> Valid()
    {
      edges := edges + [edge];
      var node1 := FindLocation(locations, edge.node1);
      var node2 := FindLocation(locations, edge.node2);
      if node1.Some? && node2.Some? {
        node1.value.AddEdge(edge);
        node2.value.AddEdge(edge);
      }
    }

    /**
     * `floydWarshall(startNodeId, endNodeId, blockedEdges)`. The
     * `blockedEdges` argument is never read; the matrices are local and
     * nothing in the solution changes.
     */
    method FloydWarshall(startNodeId: LocId, endNodeId: LocId, blockedEdges: seq<string>, fuel: nat) returns (result: Outcome)
      ensures result == RouteAsWritten(RowsOf(locations), edges, startNodeId, endNodeId, fuel)
    {
      var rows := RowsOf(locations);
      result := RouteTables(rows, edges, startNodeId, endNodeId, fuel);
    }

    /**
     * The scan of the `/locations` handler: the first location, in list
     * order, whose distance is strictly below every earlier one. `None` is
     * the `null` on which the handler then throws. A location at exactly
     * the query coordinates makes the answer one at distance 0.
     */
    method NearestLocation(lat: real, lon: real, haversine: (real, real, real, real) -> real)
      returns (closestNode: Option<Location>)
      requires forall a, b, c, e :: haversine(a, b, c, e) >= 0.0
      ensures closestNode.None? <==> locations == []
      ensures closestNode.Some? ==>
        exists k :: 0 <= k < |locations| && locations[k] == closestNode.value
          && (forall t :: 0 <= t < |locations| ==>
                locations[k].CalculateDistance(lat, lon, haversine) <= locations[t].CalculateDistance(lat, lon, haversine))
          && (forall t :: 0 <= t < k ==>
                locations[k].CalculateDistance(lat, lon, haversine) < locations[t].CalculateDistance(lat, lon, haversine))
      ensures (exists k :: 0 <= k < |locations| && locations[k].lat == lat && locations[k].lon == lon) ==>
        closestNode.Some? && closestNode.value.CalculateDistance(lat, lon, haversine) == 0.0
    {
      var shortedDistance: Option<real> := None;  // None is Infinity
      closestNode := None;
      ghost var best := 0;
      for t := 0 to |locations|
        invariant closestNode.None? <==> t == 0
        invariant shortedDistance.None? <==> t == 0
        invariant t > 0 ==> 0 <= best < t && closestNode == Some(locations[best])
        invariant t > 0 ==> shortedDistance == Some(locations[best].CalculateDistance(lat, lon, haversine))
        invariant t > 0 ==> forall s :: 0 <= s < t ==>
          locations[best].CalculateDistance(lat, lon, haversine) <= locations[s].CalculateDistance(lat, lon, haversine)
        invariant t > 0 ==> forall s :: 0 <= s < best ==>
          locations[best].CalculateDistance(lat, lon, haversine) < locations[s].CalculateDistance(lat, lon, haversine)
      {
        var distance := locations[t].CalculateDistance(lat, lon, haversine);
        if shortedDistance.None? || distance < shortedDistance.value {
          shortedDistance := Some(distance);
          closestNode := Some(locations[t]);
          best := t;
        }
      }
      if exists k :: 0 <= k < |locations| && locations[k].lat == lat && locations[k].lon == lon {
        var k :| 0 <= k < |locations| && locations[k].lat == lat && locations[k].lon == lon;
        assert locations[k].CalculateDistance(lat, lon, haversine) == 0.0;
      }
    }
  }
}
