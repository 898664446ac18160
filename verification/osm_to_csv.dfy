/**
 * scripts/json_to_csv.py: the loop over the OpenStreetMap `elements` that
 * writes one edges.csv row per consecutive pair of node refs of a named
 * way and one nodes.csv row per node, with its traffic-signal and stop
 * flags. A missing key raises out of the loop; the rows written before it
 * stay in the files.
 */
module OsmToCsv {
  import opened Wrappers
  import opened Numerals

  /** One element of `data['elements']`; `None` is a key the element lacks. */
  datatype Element = Element(
    kind: Option<string>,                // element['type']
    id: Option<int>,                     // element['id']
    tags: Option<map<string, string>>,   // element['tags']
    nodes: Option<seq<int>>,             // element['nodes']
    lat: Option<string>,                 // str(element['lat'])
    lon: Option<string>)                 // str(element['lon'])

  type Row = seq<string>

  const EdgeHeader: Row := ["id", "name", "node1", "node2"]
  const NodeHeader: Row := ["id", "lat", "lon", "traffic_signals", "stop"]

  // ---------------------------------------------------------------------
  // str() of an integer
  // ---------------------------------------------------------------------

  /** Python's `str(i)`. */
  function IntToString(i: int): string {
    if i < 0 then "-" + NatToString(-i) else NatToString(i)
  }

  // ---------------------------------------------------------------------
  // What one element writes
  // ---------------------------------------------------------------------

  /** `[element_id + node1 + node2, street_name, node1, node2]`. */
  function EdgeRowFor(wayId: string, name: string, node1: int, node2: int): Row {
    [wayId + IntToString(node1) + IntToString(node2), name, IntToString(node1), IntToString(node2)]
  }

  /** The rows of the first `n` iterations of `for i in range(len(element['nodes']) - 1)`. */
  function PairRows(wayId: string, name: string, refs: seq<int>, n: nat): seq<Row>
    requires n == 0 || n < |refs|
  {
    if n == 0 then [] else PairRows(wayId, name, refs, n - 1) + [EdgeRowFor(wayId, name, refs[n - 1], refs[n])]
  }

  /** How many times `range(len(refs) - 1)` iterates. */
  function PairCount(refs: seq<int>): nat {
    if |refs| == 0 then 0 else |refs| - 1
  }

  /** All the rows of a named way. */
  function WayRows(wayId: string, name: string, refs: seq<int>): seq<Row> {
    PairRows(wayId, name, refs, PairCount(refs))
  }

  /** `(traffic_signals, stop)` from the `highway` tag. */
  function Flags(tags: Option<map<string, string>>): (string, string) {
    if tags.Some? && "highway" in tags.value then
      if tags.value["highway"] == "traffic_signals" then ("TRUE", "FALSE")
      else if tags.value["highway"] == "stop" then ("FALSE", "TRUE")
      else ("FALSE", "FALSE")
    else ("FALSE", "FALSE")
  }

  /** Rows written to edges.csv and nodes.csv, and whether the loop went on without raising. */
  datatype Emitted = Emitted(edges: seq<Row>, nodes: seq<Row>, completed: bool)

  const Raised := Emitted([], [], false)

  /** The rows one loop iteration writes, and whether it raised. */
  function Emit(el: Element): Emitted {
    if el.kind.None? || el.id.None? then Raised
    else
      var elementId := IntToString(el.id.value);
      if el.kind.value == "way" then
        if el.tags.Some? && "name" in el.tags.value then
          if el.nodes.None? then Raised
          else Emitted(WayRows(elementId, el.tags.value["name"], el.nodes.value), [], true)
        else Emitted([], [], true)
      else if el.kind.value == "node" then
        var (trafficSignals, stop) := Flags(el.tags);
        if el.lat.None? || el.lon.None? then Raised
        else Emitted([], [[elementId, el.lat.value, el.lon.value, trafficSignals, stop]], true)
      else Emitted([], [], true)
  }

  /** The loop over `els`, leaving it at the first element that raises. */
  function EmitAll(els: seq<Element>): Emitted
    decreases |els|
  {
    if els == [] then Emitted([], [], true)
    else
      var before := EmitAll(els[..|els| - 1]);
      if !before.completed then before
      else
        var e := Emit(els[|els| - 1]);
        Emitted(before.edges + e.edges, before.nodes + e.nodes, e.completed)
  }

  /** Both files after the script: headers, then the loop's rows; `None` is a `data` without `elements`. */
  function Convert(data: Option<seq<Element>>): Emitted {
    var e := if data.None? then Raised else EmitAll(data.value);
    Emitted([EdgeHeader] + e.edges, [NodeHeader] + e.nodes, e.completed)
  }

  // ---------------------------------------------------------------------
  // The writers and the loops
  // ---------------------------------------------------------------------

  /** A `csv.writer`: the rows written so far. */
  class RowWriter {
    var rows: seq<Row>

    constructor ()
      ensures rows == []
    {
      rows := [];
    }

    /** `writerow(row)`. */
    method WriteRow(row: Row)
      modifies this
      ensures rows == old(rows) + [row]
    {
      rows := rows + [row];
    }
  }

  /** The inner `for i in range(len(element['nodes']) - 1)` loop. */
  method WriteWay(edgeWriter: RowWriter, elementId: string, streetName: string, refs: seq<int>)
    modifies edgeWriter
    ensures edgeWriter.rows == old(edgeWriter.rows) + WayRows(elementId, streetName, refs)
  {
    for i := 0 to PairCount(refs)
      invariant edgeWriter.rows == old(edgeWriter.rows) + PairRows(elementId, streetName, refs, i)
    {
      var node1 := IntToString(refs[i]);
      var node2 := IntToString(refs[i + 1]);
      edgeWriter.WriteRow([elementId + node1 + node2, streetName, node1, node2]);
    }
  }

  /** One iteration of `for element in data['elements']`; `ok` is false when it raises. */
  method WriteElement(element: Element, edgeWriter: RowWriter, nodeWriter: RowWriter) returns (ok: bool)
    requires edgeWriter != nodeWriter
    modifies edgeWriter, nodeWriter
    ensures ok == Emit(element).completed
    ensures edgeWriter.rows == old(edgeWriter.rows) + Emit(element).edges
    ensures nodeWriter.rows == old(nodeWriter.rows) + Emit(element).nodes
  {
    if element.kind.None? || element.id.None? {
      return false;
    }
    var elementType := element.kind.value;
    var elementId := IntToString(element.id.value);
    if elementType == "way" {
      if element.tags.Some? && "name" in element.tags.value {
        var streetName := element.tags.value["name"];
        if element.nodes.None? {
          return false;
        }
        WriteWay(edgeWriter, elementId, streetName, element.nodes.value);
      }
    } else if elementType == "node" {
      var trafficSignals, stop := "FALSE", "FALSE";
      if element.tags.Some? && "highway" in element.tags.value {
        if element.tags.value["highway"] == "traffic_signals" {
          trafficSignals := "TRUE";
        } else if element.tags.value["highway"] == "stop" {
          stop := "TRUE";
        }
      }
      if element.lat.None? || element.lon.None? {
        return false;
      }
      nodeWriter.WriteRow([elementId, element.lat.value, element.lon.value, trafficSignals, stop]);
    }
    ok := true;
  }

  /** Iteration `i` of the element loop, after a prefix that did not raise. */
  method WriteNext(elements: seq<Element>, i: nat, edgeWriter: RowWriter, nodeWriter: RowWriter,
                   ghost edgeBase: seq<Row>, ghost nodeBase: seq<Row>) returns (completed: bool)
    requires i < |elements| && EmitAll(elements[..i]).completed && edgeWriter != nodeWriter
    requires edgeWriter.rows == edgeBase + EmitAll(elements[..i]).edges
    requires nodeWriter.rows == nodeBase + EmitAll(elements[..i]).nodes
    modifies edgeWriter, nodeWriter
    ensures completed == EmitAll(elements[..i + 1]).completed
    ensures edgeWriter.rows == edgeBase + EmitAll(elements[..i + 1]).edges
    ensures nodeWriter.rows == nodeBase + EmitAll(elements[..i + 1]).nodes
  {
    ghost var before, e := EmitAll(elements[..i]), Emit(elements[i]);
    completed := WriteElement(elements[i], edgeWriter, nodeWriter);
    EmitAllExtend(elements, i);
    AppendStep(edgeBase, before.edges, e.edges, edgeWriter.rows);
    AppendStep(nodeBase, before.nodes, e.nodes, nodeWriter.rows);
  }

  /** Rows appended after a prefix are appended to the whole. */
  lemma AppendStep(base: seq<Row>, prefix: seq<Row>, more: seq<Row>, rows: seq<Row>)
    requires rows == base + prefix + more
    ensures rows == base + (prefix + more)
  {
  }

  /** `for element in data['elements']`, left at the first element that raises. */
  method WriteElements(elements: seq<Element>, edgeWriter: RowWriter, nodeWriter: RowWriter) returns (completed: bool)
    requires edgeWriter != nodeWriter
    modifies edgeWriter, nodeWriter
    ensures completed == EmitAll(elements).completed
    ensures edgeWriter.rows == old(edgeWriter.rows) + EmitAll(elements).edges
    ensures nodeWriter.rows == old(nodeWriter.rows) + EmitAll(elements).nodes
  {
    completed := true;
    var i := 0;
    while i < |elements| && completed
      invariant 0 <= i <= |elements|
      invariant completed == EmitAll(elements[..i]).completed
      invariant edgeWriter.rows == old(edgeWriter.rows) + EmitAll(elements[..i]).edges
      invariant nodeWriter.rows == old(nodeWriter.rows) + EmitAll(elements[..i]).nodes
    {
      completed := WriteNext(elements, i, edgeWriter, nodeWriter, old(edgeWriter.rows), old(nodeWriter.rows));
      i := i + 1;
    }
    if i < |elements| {
      StopsAtFailure(elements, i);
    } else {
      assert elements[..i] == elements;
    }
  }

  /** The whole script on the loaded JSON: the rows of edges.csv and nodes.csv, and whether it completed. */
  method ConvertData(data: Option<seq<Element>>) returns (edgeRows: seq<Row>, nodeRows: seq<Row>, completed: bool)
    ensures Emitted(edgeRows, nodeRows, completed) == Convert(data)
  {
    var edgeWriter := new RowWriter();
    var nodeWriter := new RowWriter();
    edgeWriter.WriteRow(EdgeHeader);
    nodeWriter.WriteRow(NodeHeader);
    if data.None? {
      return edgeWriter.rows, nodeWriter.rows, false;
    }
    completed := WriteElements(data.value, edgeWriter, nodeWriter);
    edgeRows, nodeRows := edgeWriter.rows, nodeWriter.rows;
  }

  // ---------------------------------------------------------------------
  // Properties
  // ---------------------------------------------------------------------

  /** One more iteration after a prefix that did not raise appends that element's rows. */
  lemma EmitAllExtend(els: seq<Element>, i: nat)
    requires i < |els| && EmitAll(els[..i]).completed
    ensures EmitAll(els[..i + 1]) ==
      Emitted(EmitAll(els[..i]).edges + Emit(els[i]).edges, EmitAll(els[..i]).nodes + Emit(els[i]).nodes, Emit(els[i]).completed)
  {
    assert els[..i + 1][..i] == els[..i];
  }

  /** Once an element raises, the rest of the elements write nothing. */
  lemma {:induction false} StopsAtFailure(els: seq<Element>, i: nat)
    requires i <= |els| && !EmitAll(els[..i]).completed
    ensures EmitAll(els) == EmitAll(els[..i])
    decreases |els|
  {
    if i < |els| {
      assert els[..|els| - 1][..i] == els[..i];
      StopsAtFailure(els[..|els| - 1], i);
    } else {
      assert els[..i] == els;
    }
  }

  /** edges.csv and nodes.csv start with their header rows, whatever the input. */
  lemma ConvertHeaders(data: Option<seq<Element>>)
    ensures |Convert(data).edges| >= 1 && Convert(data).edges[0] == ["id", "name", "node1", "node2"]
    ensures |Convert(data).nodes| >= 1 && Convert(data).nodes[0] == ["id", "lat", "lon", "traffic_signals", "stop"]
  {
  }

  /** Iteration `k` pairs `refs[k]` with `refs[k + 1]` under the id `wayId + refs[k] + refs[k + 1]`. */
  lemma {:induction false} PairRowsShape(wayId: string, name: string, refs: seq<int>, n: nat)
    requires n == 0 || n < |refs|
    ensures |PairRows(wayId, name, refs, n)| == n
    ensures forall k :: 0 <= k < n ==>
      PairRows(wayId, name, refs, n)[k] == [wayId + IntToString(refs[k]) + IntToString(refs[k + 1]), name, IntToString(refs[k]), IntToString(refs[k + 1])]
    decreases n
  {
    if n > 0 {
      PairRowsShape(wayId, name, refs, n - 1);
    }
  }

  /**
   * A named way with `n >= 1` node refs writes exactly `n - 1` edge rows,
   * one per consecutive pair in order, and no node row.
   */
  lemma NamedWay(el: Element)
    requires el.kind == Some("way") && el.id.Some? && el.nodes.Some?
    requires el.tags.Some? && "name" in el.tags.value
    ensures Emit(el).completed && Emit(el).nodes == []
    ensures |Emit(el).edges| == if |el.nodes.value| == 0 then 0 else |el.nodes.value| - 1
    ensures forall k :: 0 <= k < |Emit(el).edges| ==>
      var refs := el.nodes.value;
      Emit(el).edges[k] == [IntToString(el.id.value) + IntToString(refs[k]) + IntToString(refs[k + 1]),
                            el.tags.value["name"], IntToString(refs[k]), IntToString(refs[k + 1])]
  {
    var refs := el.nodes.value;
    PairRowsShape(IntToString(el.id.value), el.tags.value["name"], refs, PairCount(refs));
  }

  /** A way without tags, or without a `name` tag, writes nothing and does not read its node refs. */
  lemma UnnamedWay(el: Element)
    requires el.kind == Some("way") && el.id.Some?
    requires el.tags.None? || "name" !in el.tags.value
    ensures Emit(el) == Emitted([], [], true)
  {
  }

  /**
   * A node with coordinates writes exactly one node row with its id, lat
   * and lon; `traffic_signals` is TRUE exactly when the `highway` tag is
   * `traffic_signals`, `stop` exactly when it is `stop`, and never both.
   */
  lemma NodeElement(el: Element)
    requires el.kind == Some("node") && el.id.Some? && el.lat.Some? && el.lon.Some?
    ensures Emit(el).completed && Emit(el).edges == [] && |Emit(el).nodes| == 1
    ensures var row := Emit(el).nodes[0];
      && |row| == 5
      && row[0] == IntToString(el.id.value) && row[1] == el.lat.value && row[2] == el.lon.value
      && (row[3] == "TRUE" || row[3] == "FALSE") && (row[4] == "TRUE" || row[4] == "FALSE")
      && !(row[3] == "TRUE" && row[4] == "TRUE")
      && (row[3] == "TRUE" <==> el.tags.Some? && "highway" in el.tags.value && el.tags.value["highway"] == "traffic_signals")
      && (row[4] == "TRUE" <==> el.tags.Some? && "highway" in el.tags.value && el.tags.value["highway"] == "stop")
  {
  }

  /** An element that is neither a way nor a node writes nothing. */
  lemma OtherElement(el: Element)
    requires el.kind.Some? && el.kind.value != "way" && el.kind.value != "node" && el.id.Some?
    ensures Emit(el) == Emitted([], [], true)
  {
  }

  /**
   * An iteration raises exactly when `type` or `id` is missing, a named way
   * has no `nodes`, or a node lacks `lat` or `lon`; it then writes nothing.
   */
  lemma RaisingElement(el: Element)
    ensures !Emit(el).completed <==>
      || el.kind.None? || el.id.None?
      || (el.kind.value == "way" && el.tags.Some? && "name" in el.tags.value && el.nodes.None?)
      || (el.kind.value == "node" && (el.lat.None? || el.lon.None?))
    ensures !Emit(el).completed ==> Emit(el).edges == [] && Emit(el).nodes == []
  {
  }

  /** The loop runs to the end exactly when no element raises. */
  lemma {:induction false} CompletesIffNoneRaise(els: seq<Element>)
    ensures EmitAll(els).completed <==> forall k :: 0 <= k < |els| ==> Emit(els[k]).completed
    decreases |els|
  {
    if els != [] {
      CompletesIffNoneRaise(els[..|els| - 1]);
      assert EmitAll(els).completed == (EmitAll(els[..|els| - 1]).completed && Emit(els[|els| - 1]).completed);
      NoneRaiseStep(els, els[..|els| - 1]);
    }
  }

  /** No element of `els` raises iff none of its prefix `init` does and its last one does not. */
  lemma NoneRaiseStep(els: seq<Element>, init: seq<Element>)
    requires els != [] && init == els[..|els| - 1]
    ensures (forall k :: 0 <= k < |els| ==> Emit(els[k]).completed)
        <==> (forall k :: 0 <= k < |init| ==> Emit(init[k]).completed) && Emit(els[|els| - 1]).completed
  {
    assert forall k :: 0 <= k < |init| ==> init[k] == els[k];
  }

  /** The number of `node` elements in `els`. */
  function NodeElements(els: seq<Element>): nat
    decreases |els|
  {
    if els == [] then 0
    else NodeElements(els[..|els| - 1]) + (if els[|els| - 1].kind == Some("node") then 1 else 0)
  }

  /** A run that completes writes one node row per `node` element. */
  lemma {:induction false} OneRowPerNode(els: seq<Element>)
    requires EmitAll(els).completed
    ensures |EmitAll(els).nodes| == NodeElements(els)
    decreases |els|
  {
    if els != [] {
      OneRowPerNode(els[..|els| - 1]);
    }
  }

  /** The concatenated edge id does not tell the way and its pair apart: way 1 over 23, 4 and way 12 over 3, 4 both give "1234". */
  lemma EdgeIdsCollide()
    ensures EdgeRowFor(IntToString(1), "", 23, 4)[0] == EdgeRowFor(IntToString(12), "", 3, 4)[0] == "1234"
  {
  }
}
