/**
  The topology build as functions over the row sequence: the device
  registration pass, the port-and-link pass, and node finalisation. These
  are the specification the imperative build in module DataProcessor is
  proved against; modules RegistrationFacts, LinkingFacts and BuildFacts
  prove what they guarantee.
*/
module Topology {
  import opened Records

  /**
    The insertion-ordered device map: `byMac` gives the device registered
    under a MAC and `order` lists the MACs in the order they were first set.
  */
  datatype DeviceTable = DeviceTable(byMac: map<string, Device>, order: seq<string>)

  datatype Graph = Graph(table: DeviceTable, edges: seq<Edge>)

  datatype Snapshot = Snapshot(nodes: seq<Node>, edges: seq<Edge>)

  predicate Distinct(s: seq<string>) {
    forall i, j :: 0 <= i < j < |s| ==> s[i] != s[j]
  }

  /** The map and its insertion order agree, and every device sits under its own MAC. */
  ghost predicate WellFormed(t: DeviceTable) {
    && Distinct(t.order)
    && (forall m :: m in t.byMac <==> m in t.order)
    && (forall m :: m in t.byMac ==> t.byMac[m].mac == m)
  }

  const EmptyTable := DeviceTable(map[], [])

  /** Pass 1 on one row: a new MAC is registered, a known one is left alone. */
  function RegisterRow(t: DeviceTable, r: Record): DeviceTable {
    if Registers(r) && r.mac !in t.byMac then
      DeviceTable(t.byMac[r.mac := NewDevice(r)], t.order + [r.mac])
    else
      t
  }

  /** Pass 1 over all rows, in order. */
  function RegisterAll(rows: seq<Record>): (t: DeviceTable)
    decreases |rows|
    ensures WellFormed(t)
    ensures forall m :: m in t.byMac ==> t.byMac[m].ports == []
  {
    if rows == [] then EmptyTable
    else RegisterRow(RegisterAll(rows[..|rows| - 1]), rows[|rows| - 1])
  }

  predicate HasPort(ports: seq<Port>, id: string) {
    exists k :: 0 <= k < |ports| && ports[k].id == id
  }

  predicate HasEdge(edges: seq<Edge>, id: string) {
    exists k :: 0 <= k < |edges| && edges[k].id == id
  }

  function EdgeIdOf(r: Record): string {
    EdgeId(r.mac, r.remoteMac, r.portId)
  }

  /** The row describes an active link to a registered remote device. */
  predicate LinkIsUp(devices: map<string, Device>, r: Record) {
    r.remoteMac != "" && r.portStatus == "Up" && r.remoteMac in devices
  }

  /** Pass 2, ports: append the row's port to its device unless that port id is already there. */
  function AddPort(t: DeviceTable, r: Record): DeviceTable
    requires r.mac in t.byMac
  {
    var d := t.byMac[r.mac];
    if r.portId != "" && !HasPort(d.ports, r.portId) then
      t.(byMac := t.byMac[r.mac := d.(ports := d.ports + [NewPort(t.byMac, r)])])
    else
      t
  }

  /** Pass 2, links: append the row's edge unless an edge with that id is already there. */
  function AddEdge(devices: map<string, Device>, edges: seq<Edge>, r: Record): seq<Edge> {
    if LinkIsUp(devices, r) && !HasEdge(edges, EdgeIdOf(r)) then edges + [NewEdge(r)]
    else edges
  }

  /** Pass 2 on one row; rows whose MAC is not registered are skipped. */
  function LinkRow(g: Graph, r: Record): Graph {
    if r.mac != "" && r.mac in g.table.byMac then
      Graph(AddPort(g.table, r), AddEdge(g.table.byMac, g.edges, r))
    else
      g
  }

  /** Pass 2 over all rows, in order, from the state `g`. */
  function LinkAll(g: Graph, rows: seq<Record>): (h: Graph)
    requires WellFormed(g.table)
    decreases |rows|
    ensures WellFormed(h.table)
    ensures h.table.order == g.table.order && h.table.byMac.Keys == g.table.byMac.Keys
  {
    if rows == [] then g
    else
      var prev := LinkAll(g, rows[..|rows| - 1]);
      var next := LinkRow(prev, rows[|rows| - 1]);
      assert forall m :: m in next.table.byMac ==> m in prev.table.byMac;
      next
  }

  /**
    One node per device, in insertion order: node `i` is the finished form
    of the device under the `i`-th MAC, and the node ids are exactly the
    table's MACs.
  */
  function Finalize(t: DeviceTable): (nodes: seq<Node>)
    requires WellFormed(t)
    ensures |nodes| == |t.order|
    ensures forall i :: 0 <= i < |nodes| ==>
              nodes[i].id == t.order[i] && t.order[i] in t.byMac && nodes[i] == ToNode(t.byMac[t.order[i]])
    ensures forall m :: m in t.byMac <==> exists i :: 0 <= i < |nodes| && nodes[i].id == m
  {
    var nodes := seq(|t.order|, k requires 0 <= k < |t.order| => ToNode(t.byMac[t.order[k]]));
    assert forall m :: m in t.byMac ==> exists i :: 0 <= i < |t.order| && t.order[i] == m;
    assert forall i :: 0 <= i < |nodes| ==> nodes[i].id == t.order[i];
    nodes
  }

  /**
    The whole build on already-parsed rows: the nodes carry the registered
    MACs in registration order, and the port-and-link pass starts with no edges.
  */
  function Build(rows: seq<Record>): (b: Snapshot)
    ensures |b.nodes| == |RegisterAll(rows).order|
    ensures forall i :: 0 <= i < |b.nodes| ==> b.nodes[i].id == RegisterAll(rows).order[i]
  {
    var linked := LinkAll(Graph(RegisterAll(rows), []), rows);
    Snapshot(Finalize(linked.table), linked.edges)
  }
}
