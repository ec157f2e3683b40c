/**
  `processCSVData` as the program runs it: a loop that registers devices
  into an insertion-ordered map, a loop that appends ports and edges, and
  the final mapping of devices to nodes. Each loop is proved to compute the
  corresponding fold of module Topology, and the whole method to return
  `Build(rows)`, whose properties module BuildFacts proves.

  Fetching the file and parsing the CSV text happen before these loops and
  are not modelled: the method receives the parsed rows, or `None` when the
  file could not be fetched, in which case the source's `catch` returns an
  empty graph.
*/
module DataProcessor {
  import opened Wrappers
  import opened Records
  import opened Topology
  import opened RegistrationFacts
  import opened LinkingFacts
  import opened BuildFacts

  /** The first loop: register each row's device unless its MAC is already registered. */
  method RegisterDevices(rows: seq<Record>) returns (table: DeviceTable)
    ensures table == RegisterAll(rows)
    ensures forall m :: m in table.byMac <==> NamedByRegisteringRow(rows, m)
    ensures forall k :: 0 <= k < |rows| && FirstRegistration(rows, k) ==>
              rows[k].mac in table.byMac && table.byMac[rows[k].mac] == NewDevice(rows[k])
  {
    var byMac: map<string, Device> := map[];
    var order: seq<string> := [];
    for i := 0 to |rows|
      invariant DeviceTable(byMac, order) == RegisterAll(rows[..i])
    {
      var row := rows[i];
      if row.deviceType != "" && row.mac != "" {
        if row.mac !in byMac {
          byMac := byMac[row.mac := NewDevice(row)];
          order := order + [row.mac];
        }
      }
      assert rows[..i + 1] == rows[..i] + [row];
      RegisterSnoc(rows[..i], row);
    }
    assert rows[..|rows|] == rows;
    table := DeviceTable(byMac, order);
    RegisteredMacs(rows);
    FirstRowWins(rows);
  }

  /** The second loop: add each row's port and edge, skipping duplicates by id. */
  method ResolvePortsAndLinks(rows: seq<Record>, registered: DeviceTable) returns (table: DeviceTable, edges: seq<Edge>)
    requires WellFormed(registered)
    ensures Graph(table, edges) == LinkAll(Graph(registered, []), rows)
    ensures table.order == registered.order && table.byMac.Keys == registered.byMac.Keys
  {
    table, edges := registered, [];
    for i := 0 to |rows|
      invariant Graph(table, edges) == LinkAll(Graph(registered, []), rows[..i])
    {
      var row := rows[i];
      ghost var before := Graph(table, edges);
      if row.mac != "" && row.mac in table.byMac {
        var device := table.byMac[row.mac];
        if row.portId != "" && !HasPort(device.ports, row.portId) {
          var port := NewPort(table.byMac, row);
          device := device.(ports := device.ports + [port]);
          table := table.(byMac := table.byMac[row.mac := device]);
        }
        if row.remoteMac != "" && row.portStatus == "Up" && row.remoteMac in table.byMac {
          var edgeId := EdgeId(row.mac, row.remoteMac, row.portId);
          if !HasEdge(edges, edgeId) {
            edges := edges + [NewEdge(row)];
          }
        }
      }
      assert Graph(table, edges) == LinkRow(before, row);
      assert rows[..i + 1] == rows[..i] + [row];
      LinkSnoc(Graph(registered, []), rows[..i], row);
    }
    assert rows[..|rows|] == rows;
  }

  /**
    The whole of `processCSVData` after the fetch: `None` stands for a
    failed fetch, which yields no nodes and no edges.
  */
  method ProcessCsvData(source: Option<seq<Record>>) returns (nodes: seq<Node>, edges: seq<Edge>)
    ensures source.None? ==> nodes == [] && edges == []
    ensures source.Some? ==> Snapshot(nodes, edges) == Build(source.value)
    ensures source.Some? ==>
              forall i :: 0 <= i < |edges| ==> IsNodeId(nodes, edges[i].source) && IsNodeId(nodes, edges[i].target)
    ensures source.Some? ==> EdgeIdsDistinct(edges)
    ensures source.Some? ==> forall i :: 0 <= i < |nodes| ==> PortIdsDistinct(nodes[i].data.ports)
  {
    if source.None? {
      return [], [];
    }
    var rows := source.value;
    var registered := RegisterDevices(rows);
    var table;
    table, edges := ResolvePortsAndLinks(rows, registered);
    nodes := Finalize(table);
    NoDanglingEdges(rows);
    EdgeIdsUnique(rows);
    PortsDeduplicated(rows);
  }
}
