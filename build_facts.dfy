/**
  The guarantees of the whole build, stated on its output: the nodes and
  edges of `Build(rows)`.
*/
module BuildFacts {
  import opened Records
  import opened Topology
  import opened RegistrationFacts
  import opened LinkingFacts

  ghost predicate IsNodeId(nodes: seq<Node>, m: string) {
    exists i :: 0 <= i < |nodes| && nodes[i].id == m
  }

  /** The table after both passes. */
  function Linked(rows: seq<Record>): DeviceTable {
    LinkAll(Graph(RegisterAll(rows), []), rows).table
  }

  /** The node's attributes other than its ports are those built from the first row registering its MAC. */
  ghost predicate NodeFromFirstRow(rows: seq<Record>, n: Node) {
    exists k :: 0 <= k < |rows| && FirstRegistration(rows, k) && rows[k].mac == n.id && SameBase(n.data, NewDevice(rows[k]))
  }

  /** Node `i` is the finished form of the device under the `i`-th registered MAC. */
  lemma NodeAt(rows: seq<Record>, i: nat)
    requires i < |Build(rows).nodes|
    ensures var t := Linked(rows);
      && |Build(rows).nodes| == |RegisterAll(rows).order|
      && RegisterAll(rows).order[i] in t.byMac
      && Build(rows).nodes[i] == ToNode(t.byMac[RegisterAll(rows).order[i]])
      && Build(rows).nodes[i].id == RegisterAll(rows).order[i]
  {
  }

  /** The pass facts for this row sequence. */
  lemma BuildInvariants(rows: seq<Record>)
    ensures var t0 := RegisterAll(rows);
      var h := LinkAll(Graph(t0, []), rows);
      KeepsBase(t0, h.table) && PortsInv(t0, rows, h.table) && EdgesInv(t0, rows, h.edges)
  {
    LinkAllInvariants(RegisterAll(rows), rows);
  }

  /**
    Exactly one node per registered device: the node ids are distinct, and a
    MAC is a node id if and only if some row with a non-empty device type
    carries that (non-empty) MAC.
  */
  lemma NodesAreRegisteredDevices(rows: seq<Record>)
    ensures var nodes := Build(rows).nodes;
      && (forall i, j :: 0 <= i < j < |nodes| ==> nodes[i].id != nodes[j].id)
      && (forall m :: IsNodeId(nodes, m) <==> NamedByRegisteringRow(rows, m))
  {
    var nodes := Build(rows).nodes;
    var t0 := RegisterAll(rows);
    RegisteredMacs(rows);
    forall i | 0 <= i < |nodes|
      ensures nodes[i].id == t0.order[i]
    {
      NodeAt(rows, i);
    }
    forall m | NamedByRegisteringRow(rows, m)
      ensures IsNodeId(nodes, m)
    {
      assert m in t0.order;
      var i :| 0 <= i < |t0.order| && t0.order[i] == m;
      assert nodes[i].id == m;
    }
  }

  /** Nodes come in the order of the rows that first register their devices. */
  lemma NodesInFirstRegistrationOrder(rows: seq<Record>, k1: nat, k2: nat)
    requires k1 < k2 < |rows|
    requires FirstRegistration(rows, k1) && FirstRegistration(rows, k2)
    ensures var nodes := Build(rows).nodes;
      exists i1, i2 :: 0 <= i1 < i2 < |nodes| && nodes[i1].id == rows[k1].mac && nodes[i2].id == rows[k2].mac
  {
    var nodes := Build(rows).nodes;
    var order := RegisterAll(rows).order;
    RegistrationOrder(rows, k1, k2);
    var i1, i2 :| 0 <= i1 < i2 < |order| && order[i1] == rows[k1].mac && order[i2] == rows[k2].mac;
    NodeAt(rows, i1);
    NodeAt(rows, i2);
  }

  /**
    A node's attributes other than its ports are those of the device built
    from the first row registering its MAC; the port pass changes none of them.
  */
  lemma NodeAttributesFromFirstRow(rows: seq<Record>)
    ensures forall i :: 0 <= i < |Build(rows).nodes| ==> NodeFromFirstRow(rows, Build(rows).nodes[i])
  {
    var nodes := Build(rows).nodes;
    var t0 := RegisterAll(rows);
    BuildInvariants(rows);
    RegisteredDevicesComeFromFirstRows(rows);
    forall i | 0 <= i < |nodes|
      ensures NodeFromFirstRow(rows, nodes[i])
    {
      NodeAt(rows, i);
      var m := t0.order[i];
      assert m in t0.byMac;
      var k :| 0 <= k < |rows| && FirstRegistration(rows, k) && rows[k].mac == m && t0.byMac[m] == NewDevice(rows[k]);
      assert nodes[i].id == m && nodes[i].data == Linked(rows).byMac[m];
      assert SameBase(Linked(rows).byMac[m], t0.byMac[m]);
      assert SameBase(nodes[i].data, NewDevice(rows[k]));
    }
  }

  /** No device lists two ports with the same id. */
  lemma PortsDeduplicated(rows: seq<Record>)
    ensures var nodes := Build(rows).nodes;
      forall i :: 0 <= i < |nodes| ==> PortIdsDistinct(nodes[i].data.ports)
  {
    var nodes := Build(rows).nodes;
    BuildInvariants(rows);
    forall i | 0 <= i < |nodes|
      ensures PortIdsDistinct(nodes[i].data.ports)
    {
      NodeAt(rows, i);
    }
  }

  /** Every listed port is the one built from the first row with its MAC and port id. */
  lemma PortsFromFirstRows(rows: seq<Record>)
    ensures var nodes := Build(rows).nodes;
      forall i, j :: 0 <= i < |nodes| && 0 <= j < |nodes[i].data.ports| ==>
        PortFrom(RegisterAll(rows), rows, nodes[i].id, nodes[i].data.ports[j])
  {
    var nodes := Build(rows).nodes;
    var t := Linked(rows);
    BuildInvariants(rows);
    forall i, j | 0 <= i < |nodes| && 0 <= j < |nodes[i].data.ports|
      ensures PortFrom(RegisterAll(rows), rows, nodes[i].id, nodes[i].data.ports[j])
    {
      NodeAt(rows, i);
      var m := nodes[i].id;
      assert nodes[i].data == t.byMac[m];
      assert PortFrom(RegisterAll(rows), rows, m, t.byMac[m].ports[j]);
    }
  }

  /** Every row of a registered device that carries a port id has that port listed. */
  lemma EveryPortListed(rows: seq<Record>)
    ensures var nodes := Build(rows).nodes;
      forall k :: 0 <= k < |rows| && NamedByRegisteringRow(rows, rows[k].mac) && rows[k].portId != "" ==>
        exists i :: 0 <= i < |nodes| && nodes[i].id == rows[k].mac && HasPort(nodes[i].data.ports, rows[k].portId)
  {
    var nodes := Build(rows).nodes;
    var t := Linked(rows);
    BuildInvariants(rows);
    RegisteredMacs(rows);
    NodesAreRegisteredDevices(rows);
    forall k | 0 <= k < |rows| && NamedByRegisteringRow(rows, rows[k].mac) && rows[k].portId != ""
      ensures exists i :: 0 <= i < |nodes| && nodes[i].id == rows[k].mac && HasPort(nodes[i].data.ports, rows[k].portId)
    {
      var m := rows[k].mac;
      var w :| 0 <= w < |rows| && Registers(rows[w]) && rows[w].mac == m;
      assert m != "";
      assert IsNodeId(nodes, m);
      var i :| 0 <= i < |nodes| && nodes[i].id == m;
      NodeAt(rows, i);
    }
  }

  /**
    A node's ports come in the order of the rows that first carry their ids:
    of two such rows for one registered device, the earlier row's port is
    listed first.
  */
  lemma NodePortsInFirstRowOrder(rows: seq<Record>, k1: nat, k2: nat)
    requires k1 < k2 < |rows| && FirstPortRow(rows, k1) && FirstPortRow(rows, k2)
    requires rows[k1].mac == rows[k2].mac && NamedByRegisteringRow(rows, rows[k1].mac)
    ensures var nodes := Build(rows).nodes;
      exists i, j1, j2 :: 0 <= i < |nodes| && nodes[i].id == rows[k1].mac && 0 <= j1 < j2 < |nodes[i].data.ports| &&
        nodes[i].data.ports[j1].id == rows[k1].portId && nodes[i].data.ports[j2].id == rows[k2].portId
  {
    var nodes := Build(rows).nodes;
    var t0 := RegisterAll(rows);
    var m := rows[k1].mac;
    RegisteredMacs(rows);
    var w :| 0 <= w < |rows| && Registers(rows[w]) && rows[w].mac == m;
    PortsInFirstRowOrder(t0, rows, k1, k2);
    NodesAreRegisteredDevices(rows);
    var i :| 0 <= i < |nodes| && nodes[i].id == m;
    NodeAt(rows, i);
    assert nodes[i].data.ports == PortsAfter(t0, rows, m);
  }

  /** No dangling edges: both ends of every edge are nodes. */
  lemma NoDanglingEdges(rows: seq<Record>)
    ensures var b := Build(rows);
      forall i :: 0 <= i < |b.edges| ==> IsNodeId(b.nodes, b.edges[i].source) && IsNodeId(b.nodes, b.edges[i].target)
  {
    var b := Build(rows);
    var t0 := RegisterAll(rows);
    BuildInvariants(rows);
    RegisteredMacs(rows);
    NodesAreRegisteredDevices(rows);
    forall i | 0 <= i < |b.edges|
      ensures IsNodeId(b.nodes, b.edges[i].source) && IsNodeId(b.nodes, b.edges[i].target)
    {
      assert EdgeFrom(t0, rows, b.edges[i]);
      var k :| 0 <= k < |rows| && FirstEdgeRow(t0.byMac, rows, k) && b.edges[i] == NewEdge(rows[k]);
      assert rows[k].mac in t0.byMac && rows[k].remoteMac in t0.byMac;
    }
  }

  /** Edge ids are unique across the output. */
  lemma EdgeIdsUnique(rows: seq<Record>)
    ensures EdgeIdsDistinct(Build(rows).edges)
  {
    BuildInvariants(rows);
  }

  /**
    Every edge is the one built from the first row with its id whose link is
    up and whose two ends are registered; a later row with that id adds nothing.
  */
  lemma EdgesFromFirstRows(rows: seq<Record>)
    ensures var edges := Build(rows).edges;
      forall i :: 0 <= i < |edges| ==> EdgeFrom(RegisterAll(rows), rows, edges[i])
  {
    BuildInvariants(rows);
  }

  /** Edges come in the order of the first rows that yield their ids. */
  lemma BuildEdgesInFirstRowOrder(rows: seq<Record>, k1: nat, k2: nat)
    requires k1 < k2 < |rows|
    requires FirstEdgeRow(RegisterAll(rows).byMac, rows, k1) && FirstEdgeRow(RegisterAll(rows).byMac, rows, k2)
    ensures var edges := Build(rows).edges;
      exists j1, j2 :: 0 <= j1 < j2 < |edges| && edges[j1].id == EdgeIdOf(rows[k1]) && edges[j2].id == EdgeIdOf(rows[k2])
  {
    EdgesInFirstRowOrder(RegisterAll(rows), rows, k1, k2);
  }

  /** Every row whose link is up between two registered devices has an edge with its id. */
  lemma EveryActiveLinkHasEdge(rows: seq<Record>)
    ensures forall k :: 0 <= k < |rows| && YieldsEdge(RegisterAll(rows).byMac, rows[k]) ==>
              HasEdge(Build(rows).edges, EdgeIdOf(rows[k]))
  {
    BuildInvariants(rows);
  }
}
