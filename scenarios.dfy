/** Concrete builds: single-row cases, a link reported from both ends, and the two-device example. */
module Scenarios {
  import opened Records
  import opened Topology
  import opened RegistrationFacts
  import opened LinkingFacts
  import opened BuildFacts
  import StationName

  /** A row with only the fields these scenarios use. */
  function Row(name: string, deviceType: string, mac: string, runState: string,
               portId: string, remoteMac: string, portStatus: string): Record
  {
    Record(name, "", deviceType, mac, "", runState, portId, "", "", "", remoteMac, portStatus)
  }

  /** A row with a device type but no MAC registers nothing. */
  lemma RowWithoutMacGivesNoDevice()
    ensures Build([Row("plc", "PLC", "", "Ok", "1", "", "Up")]).nodes == []
  {
    var rows := [Row("plc", "PLC", "", "Ok", "1", "", "Up")];
    assert rows[..0] == [];
    assert RegisterAll(rows) == EmptyTable;
  }

  /** A link to a MAC that no row registers gives no edge. */
  lemma LinkToUnknownDeviceGivesNoEdge()
    ensures Build([Row("plc", "PLC", "AA", "Ok", "1", "BB", "Up")]).edges == []
  {
    var r := Row("plc", "PLC", "AA", "Ok", "1", "BB", "Up");
    var rows := [r];
    assert rows == [] + [r];
    RegisterSnoc([], r);
    var t := RegisterAll(rows);
    assert "BB" !in t.byMac;
    LinkSnoc(Graph(t, []), [], r);
  }

  /**
    A link reported from both ends gives two edges: when rows `k1` and `k2`
    are active links between the same two registered devices in opposite
    directions, and the two MACs have the same length, the output holds
    two different edges, one with each row's id.
  */
  lemma BothDirectionsGiveTwoEdges(rows: seq<Record>, k1: nat, k2: nat)
    requires k1 < |rows| && k2 < |rows|
    requires YieldsEdge(RegisterAll(rows).byMac, rows[k1]) && YieldsEdge(RegisterAll(rows).byMac, rows[k2])
    requires rows[k2].mac == rows[k1].remoteMac && rows[k2].remoteMac == rows[k1].mac
    requires rows[k1].mac != rows[k1].remoteMac && |rows[k1].mac| == |rows[k1].remoteMac|
    ensures var edges := Build(rows).edges;
      exists i, j :: 0 <= i < |edges| && 0 <= j < |edges| && i != j &&
        edges[i].id == EdgeIdOf(rows[k1]) && edges[j].id == EdgeIdOf(rows[k2])
  {
    var edges := Build(rows).edges;
    EveryActiveLinkHasEdge(rows);
    ReverseEdgeIdDiffers(rows[k1].mac, rows[k1].remoteMac, rows[k1].portId, rows[k2].portId);
    var i :| 0 <= i < |edges| && edges[i].id == EdgeIdOf(rows[k1]);
    var j :| 0 <= j < |edges| && edges[j].id == EdgeIdOf(rows[k2]);
    assert i != j;
  }

  // ---- the two-device example ----
  // A PLC "AA" with one port linked up to switch "BB", and the switch's
  // three rows: port 1 linked up back to the PLC, ports 2 and 3 unlinked.
  // The station names are parameters so that the general lemmas stay cheap;
  // `TwoDeviceScenario` instantiates them.

  function R1(n1: string): Record { Row(n1, "PLC", "AA", "Ok", "1", "BB", "Up") }
  function R2(n2: string): Record { Row(n2, "Switch", "BB", "Ok", "1", "AA", "Up") }
  function R3(n2: string): Record { Row(n2, "Switch", "BB", "Ok", "2", "", "") }
  function R4(n2: string): Record { Row(n2, "Switch", "BB", "Ok", "3", "", "") }
  function Rows(n1: string, n2: string): seq<Record> { [R1(n1), R2(n2), R3(n2), R4(n2)] }

  function Registered(n1: string, n2: string): DeviceTable {
    DeviceTable(map["AA" := NewDevice(R1(n1)), "BB" := NewDevice(R2(n2))], ["AA", "BB"])
  }

  lemma RegisterFirst(n1: string)
    ensures RegisterAll([R1(n1)]) == DeviceTable(map["AA" := NewDevice(R1(n1))], ["AA"])
  {
    assert [R1(n1)] == [] + [R1(n1)];
    RegisterSnoc([], R1(n1));
  }

  lemma RegisterFirstTwo(n1: string, n2: string)
    ensures RegisterAll([R1(n1), R2(n2)]) == Registered(n1, n2)
  {
    var t := DeviceTable(map["AA" := NewDevice(R1(n1))], ["AA"]);
    RegisterFirst(n1);
    assert [R1(n1), R2(n2)] == [R1(n1)] + [R2(n2)];
    RegisterSnoc([R1(n1)], R2(n2));
    assert "BB" !in t.byMac;
  }

  /** A further row for the already registered switch changes nothing. */
  lemma RegisterKnownRow(n1: string, n2: string, p: seq<Record>, r: Record)
    requires RegisterAll(p) == Registered(n1, n2) && r.mac == "BB"
    ensures RegisterAll(p + [r]) == Registered(n1, n2)
  {
    RegisterSnoc(p, r);
  }

  lemma RegisterRows(n1: string, n2: string)
    ensures RegisterAll(Rows(n1, n2)) == Registered(n1, n2)
  {
    var r1, r2, r3, r4 := R1(n1), R2(n2), R3(n2), R4(n2);
    RegisterFirstTwo(n1, n2);
    RegisterKnownRow(n1, n2, [r1, r2], r3);
    assert [r1, r2] + [r3] == [r1, r2, r3];
    RegisterKnownRow(n1, n2, [r1, r2, r3], r4);
    assert [r1, r2, r3] + [r4] == Rows(n1, n2);
  }

  lemma RegisteredWellFormed(n1: string, n2: string)
    ensures WellFormed(Registered(n1, n2))
  {
    RegisterRows(n1, n2);
  }

  /** The table and edges after the first `i` rows of the port-and-link pass. */
  function LinkedAfter(n1: string, n2: string, i: nat): Graph
    requires 1 <= i <= 4
  {
    var t := Registered(n1, n2);
    var p1 := NewPort(t.byMac, R1(n1));
    var plc := t.byMac["AA"].(ports := [p1]);
    var sw := t.byMac["BB"];
    var q1, q2, q3 := NewPort(t.byMac, R2(n2)), NewPort(t.byMac, R3(n2)), NewPort(t.byMac, R4(n2));
    var qs := if i == 2 then [q1] else if i == 3 then [q1, q2] else [q1, q2, q3];
    if i == 1 then Graph(DeviceTable(t.byMac["AA" := plc], t.order), [NewEdge(R1(n1))])
    else Graph(DeviceTable(t.byMac["AA" := plc]["BB" := sw.(ports := qs)], t.order),
               [NewEdge(R1(n1)), NewEdge(R2(n2))])
  }

  lemma Link1(n1: string, n2: string)
    ensures WellFormed(Registered(n1, n2))
    ensures LinkAll(Graph(Registered(n1, n2), []), [R1(n1)]) == LinkedAfter(n1, n2, 1)
  {
    var t, r := Registered(n1, n2), R1(n1);
    RegisteredWellFormed(n1, n2);
    assert [r] == [] + [r];
    LinkSnoc(Graph(t, []), [], r);
    assert !HasPort(t.byMac["AA"].ports, "1");
    assert t.byMac["AA"].ports + [NewPort(t.byMac, r)] == [NewPort(t.byMac, r)];
    assert LinkIsUp(t.byMac, r);
  }

  function RowAt(n1: string, n2: string, i: nat): Record
    requires 2 <= i <= 4
  {
    if i == 2 then R2(n2) else if i == 3 then R3(n2) else R4(n2)
  }

  /** Rows 2 to 4 each append their port to the switch. */
  lemma PortStep(n1: string, n2: string, i: nat)
    requires 2 <= i <= 4
    ensures "BB" in LinkedAfter(n1, n2, i - 1).table.byMac
    ensures AddPort(LinkedAfter(n1, n2, i - 1).table, RowAt(n1, n2, i)) == LinkedAfter(n1, n2, i).table
  {
    var t, r := Registered(n1, n2), RowAt(n1, n2, i);
    var g := LinkedAfter(n1, n2, i - 1);
    var sw := t.byMac["BB"];
    var q1, q2, q3 := NewPort(t.byMac, R2(n2)), NewPort(t.byMac, R3(n2)), NewPort(t.byMac, R4(n2));
    var prior := if i == 2 then [] else if i == 3 then [q1] else [q1, q2];
    var q := if i == 2 then q1 else if i == 3 then q2 else q3;
    assert g.table.byMac["BB"] == sw.(ports := prior);
    assert g.table.byMac["AA"].nameOfStation == t.byMac["AA"].nameOfStation;
    assert NewPort(g.table.byMac, r) == q;
    assert !HasPort(prior, r.portId);
    assert prior + [q] == (if i == 2 then [q1] else if i == 3 then [q1, q2] else [q1, q2, q3]);
  }

  /** Row 2 adds the reverse edge; rows 3 and 4 carry no link. */
  lemma EdgeStep(n1: string, n2: string, i: nat)
    requires 2 <= i <= 4
    ensures AddEdge(LinkedAfter(n1, n2, i - 1).table.byMac, LinkedAfter(n1, n2, i - 1).edges, RowAt(n1, n2, i)) == LinkedAfter(n1, n2, i).edges
  {
    if i == 2 {
      var g := LinkedAfter(n1, n2, 1);
      ReverseEdgeIdDiffers("AA", "BB", "1", "1");
      assert !HasEdge(g.edges, EdgeIdOf(R2(n2)));
      assert LinkIsUp(g.table.byMac, R2(n2));
    }
  }

  lemma LinkStep(n1: string, n2: string, i: nat, p: seq<Record>)
    requires 2 <= i <= 4
    requires WellFormed(Registered(n1, n2))
    requires LinkAll(Graph(Registered(n1, n2), []), p) == LinkedAfter(n1, n2, i - 1)
    ensures LinkAll(Graph(Registered(n1, n2), []), p + [RowAt(n1, n2, i)]) == LinkedAfter(n1, n2, i)
  {
    LinkSnoc(Graph(Registered(n1, n2), []), p, RowAt(n1, n2, i));
    PortStep(n1, n2, i);
    EdgeStep(n1, n2, i);
  }

  lemma RowsPrefix(n1: string, n2: string, i: nat)
    requires 2 <= i <= 4
    ensures Rows(n1, n2)[..i - 1] + [RowAt(n1, n2, i)] == Rows(n1, n2)[..i]
  {
  }

  lemma {:induction false} LinkPrefix(n1: string, n2: string, i: nat)
    requires 1 <= i <= 4
    ensures WellFormed(Registered(n1, n2))
    ensures LinkAll(Graph(Registered(n1, n2), []), Rows(n1, n2)[..i]) == LinkedAfter(n1, n2, i)
  {
    if i == 1 {
      Link1(n1, n2);
      assert Rows(n1, n2)[..1] == [R1(n1)];
    } else {
      LinkPrefix(n1, n2, i - 1);
      LinkStep(n1, n2, i, Rows(n1, n2)[..i - 1]);
      RowsPrefix(n1, n2, i);
    }
  }

  lemma LinkRows(n1: string, n2: string)
    ensures WellFormed(Registered(n1, n2))
    ensures LinkAll(Graph(Registered(n1, n2), []), Rows(n1, n2)) == LinkedAfter(n1, n2, 4)
  {
    LinkPrefix(n1, n2, 4);
    assert Rows(n1, n2)[..4] == Rows(n1, n2);
  }

  /** The build is the finished form of the table after the fourth row. */
  lemma BuildIsLinked(n1: string, n2: string)
    ensures WellFormed(LinkedAfter(n1, n2, 4).table)
    ensures Build(Rows(n1, n2)) == Snapshot(Finalize(LinkedAfter(n1, n2, 4).table), LinkedAfter(n1, n2, 4).edges)
  {
    RegisterRows(n1, n2);
    LinkRows(n1, n2);
  }

  lemma FinalNodes(n1: string, n2: string)
    requires WellFormed(LinkedAfter(n1, n2, 4).table)
    ensures var nodes := Finalize(LinkedAfter(n1, n2, 4).table);
      && |nodes| == 2 && nodes[0].id == "AA" && nodes[1].id == "BB"
      && nodes[0].data.nameOfStation == DisplayName(R1(n1))
      && nodes[0].portCount == 1 && nodes[1].portCount == 3 && nodes[1].style == Green
      && nodes[0].data.ports[0].remoteDevice == DisplayName(R2(n2))
      && nodes[1].data.ports[0].remoteDevice == DisplayName(R1(n1))
  {
    var t := LinkedAfter(n1, n2, 4).table;
    assert t.order == ["AA", "BB"];
  }

  /** The outcome for any two station names. */
  lemma TwoDeviceBuild(n1: string, n2: string)
    ensures var b := Build(Rows(n1, n2));
      && |b.nodes| == 2 && b.nodes[0].id == "AA" && b.nodes[1].id == "BB"
      && b.nodes[0].data.nameOfStation == DisplayName(R1(n1))
      && b.nodes[0].portCount == 1 && b.nodes[1].portCount == 3 && b.nodes[1].style == Green
      && b.nodes[0].data.ports[0].remoteDevice == DisplayName(R2(n2))
      && b.nodes[1].data.ports[0].remoteDevice == DisplayName(R1(n1))
      && b.edges == [NewEdge(R1(n1)), NewEdge(R2(n2))]
      && b.edges[0].id != b.edges[1].id
  {
    BuildIsLinked(n1, n2);
    FinalNodes(n1, n2);
    ReverseEdgeIdDiffers("AA", "BB", "1", "1");
  }

  /** The example: a PLC `fo1.profinet.x` linked both ways to the three-port switch `sw1`. */
  lemma TwoDeviceScenario()
    ensures var b := Build(Rows("fo1.profinet.x", "sw1"));
      && |b.nodes| == 2
      && b.nodes[0].data.nameOfStation == "fo1" && b.nodes[0].style == Pink
      && b.nodes[1].portCount == 3 && b.nodes[1].style == Green
      && |b.edges| == 2
  {
    TwoDeviceBuild("fo1.profinet.x", "sw1");
    StationName.StripExample();
  }
}
