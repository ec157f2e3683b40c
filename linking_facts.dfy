/**
  What the port-and-link pass guarantees, stated for any starting table
  whose devices have no ports yet: it keeps every device's attributes,
  lists each port id of a device once, taken from the first row that
  carries it, and keeps one edge per edge id, taken from the first active
  row with that id, between registered devices only.
*/
module LinkingFacts {
  import opened Records
  import opened Topology

  predicate PortIdsDistinct(ports: seq<Port>) {
    forall i, j :: 0 <= i < j < |ports| ==> ports[i].id != ports[j].id
  }

  predicate EdgeIdsDistinct(edges: seq<Edge>) {
    forall i, j :: 0 <= i < j < |edges| ==> edges[i].id != edges[j].id
  }

  /** Row `k` is the first row for its MAC that carries its (non-empty) port id. */
  predicate FirstPortRow(rows: seq<Record>, k: nat)
    requires k < |rows|
  {
    rows[k].portId != "" &&
    forall j :: 0 <= j < k ==> !(rows[j].mac == rows[k].mac && rows[j].portId == rows[k].portId)
  }

  /** The row adds an edge unless its id is taken: both ends registered and the link up. */
  predicate YieldsEdge(devices: map<string, Device>, r: Record) {
    r.mac != "" && r.mac in devices && LinkIsUp(devices, r)
  }

  /** Row `k` is the first edge-yielding row with its edge id. */
  predicate FirstEdgeRow(devices: map<string, Device>, rows: seq<Record>, k: nat)
    requires k < |rows|
  {
    YieldsEdge(devices, rows[k]) &&
    forall j :: 0 <= j < k ==> !(YieldsEdge(devices, rows[j]) && EdgeIdOf(rows[j]) == EdgeIdOf(rows[k]))
  }

  /** Port `q` of device `m` is the port built from the first row carrying its id for `m`. */
  ghost predicate PortFrom(t0: DeviceTable, rows: seq<Record>, m: string, q: Port) {
    exists k :: 0 <= k < |rows| && rows[k].mac == m && FirstPortRow(rows, k) && q == NewPort(t0.byMac, rows[k])
  }

  /** Edge `e` is the edge built from the first edge-yielding row with its id. */
  ghost predicate EdgeFrom(t0: DeviceTable, rows: seq<Record>, e: Edge) {
    exists k :: 0 <= k < |rows| && FirstEdgeRow(t0.byMac, rows, k) && e == NewEdge(rows[k])
  }

  /** The pass changes no device attribute other than the ports. */
  ghost predicate KeepsBase(t0: DeviceTable, t: DeviceTable) {
    && t.order == t0.order
    && t.byMac.Keys == t0.byMac.Keys
    && forall m :: m in t.byMac ==> SameBase(t.byMac[m], t0.byMac[m])
  }

  ghost predicate PortsInv(t0: DeviceTable, rows: seq<Record>, t: DeviceTable) {
    && (forall m :: m in t.byMac ==> PortIdsDistinct(t.byMac[m].ports))
    && (forall m, j :: m in t.byMac && 0 <= j < |t.byMac[m].ports| ==> PortFrom(t0, rows, m, t.byMac[m].ports[j]))
    && (forall k :: 0 <= k < |rows| && rows[k].mac != "" && rows[k].mac in t.byMac && rows[k].portId != "" ==>
          HasPort(t.byMac[rows[k].mac].ports, rows[k].portId))
  }

  ghost predicate EdgesInv(t0: DeviceTable, rows: seq<Record>, edges: seq<Edge>) {
    && EdgeIdsDistinct(edges)
    && (forall i :: 0 <= i < |edges| ==> EdgeFrom(t0, rows, edges[i]))
    && (forall k :: 0 <= k < |rows| && YieldsEdge(t0.byMac, rows[k]) ==> HasEdge(edges, EdgeIdOf(rows[k])))
  }

  lemma LinkSnoc(g: Graph, p: seq<Record>, r: Record)
    requires WellFormed(g.table)
    ensures LinkAll(g, p + [r]) == LinkRow(LinkAll(g, p), r)
  {
    assert (p + [r])[..|p|] == p;
  }

  // ---- the base attributes ----

  lemma KeepsBaseStep(t0: DeviceTable, g: Graph, r: Record)
    requires KeepsBase(t0, g.table)
    ensures KeepsBase(t0, LinkRow(g, r).table)
  {
    var t := LinkRow(g, r).table;
    forall m | m in t.byMac
      ensures SameBase(t.byMac[m], t0.byMac[m])
    {
      if r.mac != "" && r.mac in g.table.byMac && m == r.mac {
        assert SameBase(t.byMac[m], g.table.byMac[m]);
      }
    }
  }

  /** The remote-name lookup only reads attributes the pass keeps. */
  lemma NewPortStable(t0: DeviceTable, t: DeviceTable, r: Record)
    requires KeepsBase(t0, t)
    ensures NewPort(t.byMac, r) == NewPort(t0.byMac, r)
  {
    if r.remoteMac != "" && r.remoteMac in t.byMac {
      assert SameBase(t.byMac[r.remoteMac], t0.byMac[r.remoteMac]);
      assert t.byMac[r.remoteMac].(ports := []).nameOfStation == t.byMac[r.remoteMac].nameOfStation;
    }
  }

  // ---- ports ----

  lemma FirstPortRowOld(p: seq<Record>, r: Record, k: nat)
    requires k < |p|
    ensures FirstPortRow(p + [r], k) <==> FirstPortRow(p, k)
  {
    assert forall j :: 0 <= j <= k ==> (p + [r])[j] == p[j];
  }

  lemma PortFromExtend(t0: DeviceTable, p: seq<Record>, r: Record, m: string, q: Port)
    requires PortFrom(t0, p, m, q)
    ensures PortFrom(t0, p + [r], m, q)
  {
    var k :| 0 <= k < |p| && p[k].mac == m && FirstPortRow(p, k) && q == NewPort(t0.byMac, p[k]);
    FirstPortRowOld(p, r, k);
    assert (p + [r])[k] == p[k];
  }

  /** A row whose port id its device already has, or an ignored row, keeps the port invariant. */
  lemma PortsStepUnchanged(t0: DeviceTable, p: seq<Record>, t: DeviceTable, r: Record)
    requires PortsInv(t0, p, t)
    requires !(r.mac != "" && r.mac in t.byMac && r.portId != "") || HasPort(t.byMac[r.mac].ports, r.portId)
    ensures PortsInv(t0, p + [r], t)
  {
    var rows := p + [r];
    forall m, j | m in t.byMac && 0 <= j < |t.byMac[m].ports|
      ensures PortFrom(t0, rows, m, t.byMac[m].ports[j])
    {
      PortFromExtend(t0, p, r, m, t.byMac[m].ports[j]);
    }
    forall k | 0 <= k < |rows| && rows[k].mac != "" && rows[k].mac in t.byMac && rows[k].portId != ""
      ensures HasPort(t.byMac[rows[k].mac].ports, rows[k].portId)
    {
      if k < |p| {
        assert rows[k] == p[k];
      }
    }
  }

  lemma HasPortAppend(ports: seq<Port>, q: Port, id: string)
    requires HasPort(ports, id) || q.id == id
    ensures HasPort(ports + [q], id)
  {
    if HasPort(ports, id) {
      var k :| 0 <= k < |ports| && ports[k].id == id;
      assert (ports + [q])[k] == ports[k];
    } else {
      assert (ports + [q])[|ports|] == q;
    }
  }

  /** The appended port comes from the first row with that MAC and port id. */
  lemma NewPortIsFirst(t0: DeviceTable, p: seq<Record>, t: DeviceTable, r: Record)
    requires PortsInv(t0, p, t)
    requires r.mac != "" && r.mac in t.byMac && r.portId != "" && !HasPort(t.byMac[r.mac].ports, r.portId)
    ensures FirstPortRow(p + [r], |p|)
  {
    var rows := p + [r];
    forall j | 0 <= j < |p|
      ensures !(rows[j].mac == r.mac && rows[j].portId == r.portId)
    {
      assert rows[j] == p[j];
    }
  }

  /** A row bringing a new port id for its device keeps the port invariant. */
  lemma PortsStepAppend(t0: DeviceTable, p: seq<Record>, g: Graph, r: Record)
    requires KeepsBase(t0, g.table) && PortsInv(t0, p, g.table)
    requires r.mac != "" && r.mac in g.table.byMac && r.portId != "" && !HasPort(g.table.byMac[r.mac].ports, r.portId)
    ensures PortsInv(t0, p + [r], LinkRow(g, r).table)
  {
    var rows := p + [r];
    var prior := g.table.byMac[r.mac].ports;
    var q := NewPort(g.table.byMac, r);
    var t := LinkRow(g, r).table;
    assert t.byMac == g.table.byMac[r.mac := g.table.byMac[r.mac].(ports := prior + [q])];
    NewPortStable(t0, g.table, r);
    NewPortIsFirst(t0, p, g.table, r);
    assert PortFrom(t0, rows, r.mac, q) by {
      assert rows[|p|] == r;
    }
    forall m | m in t.byMac
      ensures PortIdsDistinct(t.byMac[m].ports)
    {
      if m == r.mac {
        forall i | 0 <= i < |prior|
          ensures prior[i].id != q.id
        {
        }
      }
    }
    forall m, j | m in t.byMac && 0 <= j < |t.byMac[m].ports|
      ensures PortFrom(t0, rows, m, t.byMac[m].ports[j])
    {
      if m == r.mac && j == |prior| {
      } else {
        assert t.byMac[m].ports[j] == g.table.byMac[m].ports[j];
        PortFromExtend(t0, p, r, m, t.byMac[m].ports[j]);
      }
    }
    forall k | 0 <= k < |rows| && rows[k].mac != "" && rows[k].mac in t.byMac && rows[k].portId != ""
      ensures HasPort(t.byMac[rows[k].mac].ports, rows[k].portId)
    {
      if k < |p| {
        assert rows[k] == p[k];
        if rows[k].mac == r.mac {
          HasPortAppend(prior, q, rows[k].portId);
        }
      } else {
        HasPortAppend(prior, q, r.portId);
      }
    }
  }

  lemma PortsStep(t0: DeviceTable, p: seq<Record>, g: Graph, r: Record)
    requires KeepsBase(t0, g.table) && PortsInv(t0, p, g.table)
    ensures PortsInv(t0, p + [r], LinkRow(g, r).table)
  {
    if r.mac != "" && r.mac in g.table.byMac && r.portId != "" && !HasPort(g.table.byMac[r.mac].ports, r.portId) {
      PortsStepAppend(t0, p, g, r);
    } else {
      assert LinkRow(g, r).table == g.table;
      PortsStepUnchanged(t0, p, g.table, r);
    }
  }

  // ---- edges ----

  lemma FirstEdgeRowOld(devices: map<string, Device>, p: seq<Record>, r: Record, k: nat)
    requires k < |p|
    ensures FirstEdgeRow(devices, p + [r], k) <==> FirstEdgeRow(devices, p, k)
  {
    assert forall j :: 0 <= j <= k ==> (p + [r])[j] == p[j];
  }

  lemma EdgeFromExtend(t0: DeviceTable, p: seq<Record>, r: Record, e: Edge)
    requires EdgeFrom(t0, p, e)
    ensures EdgeFrom(t0, p + [r], e)
  {
    var k :| 0 <= k < |p| && FirstEdgeRow(t0.byMac, p, k) && e == NewEdge(p[k]);
    FirstEdgeRowOld(t0.byMac, p, r, k);
    assert (p + [r])[k] == p[k];
  }

  lemma HasEdgeAppend(edges: seq<Edge>, e: Edge, id: string)
    requires HasEdge(edges, id) || e.id == id
    ensures HasEdge(edges + [e], id)
  {
    if HasEdge(edges, id) {
      var k :| 0 <= k < |edges| && edges[k].id == id;
      assert (edges + [e])[k] == edges[k];
    } else {
      assert (edges + [e])[|edges|] == e;
    }
  }

  lemma EdgesStepUnchanged(t0: DeviceTable, p: seq<Record>, edges: seq<Edge>, r: Record)
    requires EdgesInv(t0, p, edges)
    requires YieldsEdge(t0.byMac, r) ==> HasEdge(edges, EdgeIdOf(r))
    ensures EdgesInv(t0, p + [r], edges)
  {
    var rows := p + [r];
    forall i | 0 <= i < |edges|
      ensures EdgeFrom(t0, rows, edges[i])
    {
      EdgeFromExtend(t0, p, r, edges[i]);
    }
    forall k | 0 <= k < |rows| && YieldsEdge(t0.byMac, rows[k])
      ensures HasEdge(edges, EdgeIdOf(rows[k]))
    {
      if k < |p| {
        assert rows[k] == p[k];
      }
    }
  }

  lemma NewEdgeIsFirst(t0: DeviceTable, p: seq<Record>, edges: seq<Edge>, r: Record)
    requires EdgesInv(t0, p, edges)
    requires YieldsEdge(t0.byMac, r) && !HasEdge(edges, EdgeIdOf(r))
    ensures FirstEdgeRow(t0.byMac, p + [r], |p|)
  {
    var rows := p + [r];
    forall j | 0 <= j < |p|
      ensures !(YieldsEdge(t0.byMac, rows[j]) && EdgeIdOf(rows[j]) == EdgeIdOf(r))
    {
      assert rows[j] == p[j];
    }
  }

  lemma EdgesStepAppend(t0: DeviceTable, p: seq<Record>, edges: seq<Edge>, r: Record)
    requires EdgesInv(t0, p, edges)
    requires YieldsEdge(t0.byMac, r) && !HasEdge(edges, EdgeIdOf(r))
    ensures EdgesInv(t0, p + [r], edges + [NewEdge(r)])
  {
    var rows := p + [r];
    var e := NewEdge(r);
    var edges' := edges + [e];
    NewEdgeIsFirst(t0, p, edges, r);
    forall i, j | 0 <= i < j < |edges'|
      ensures edges'[i].id != edges'[j].id
    {
      if j == |edges| {
        assert edges'[i] == edges[i];
      }
    }
    forall i | 0 <= i < |edges'|
      ensures EdgeFrom(t0, rows, edges'[i])
    {
      if i < |edges| {
        assert edges'[i] == edges[i];
        EdgeFromExtend(t0, p, r, edges[i]);
      } else {
        assert rows[|p|] == r;
      }
    }
    forall k | 0 <= k < |rows| && YieldsEdge(t0.byMac, rows[k])
      ensures HasEdge(edges', EdgeIdOf(rows[k]))
    {
      if k < |p| {
        assert rows[k] == p[k];
      }
      HasEdgeAppend(edges, e, EdgeIdOf(rows[k]));
    }
  }

  lemma EdgesStep(t0: DeviceTable, p: seq<Record>, g: Graph, r: Record)
    requires KeepsBase(t0, g.table) && EdgesInv(t0, p, g.edges)
    ensures EdgesInv(t0, p + [r], LinkRow(g, r).edges)
  {
    var devices := g.table.byMac;
    assert YieldsEdge(devices, r) == YieldsEdge(t0.byMac, r);
    if YieldsEdge(devices, r) && !HasEdge(g.edges, EdgeIdOf(r)) {
      EdgesStepAppend(t0, p, g.edges, r);
    } else {
      EdgesStepUnchanged(t0, p, g.edges, r);
    }
  }

  // ---- the whole pass ----

  /** The pass's guarantees, by induction over the rows. */
  lemma {:induction false} LinkAllInvariants(t0: DeviceTable, rows: seq<Record>)
    requires WellFormed(t0)
    requires forall m :: m in t0.byMac ==> t0.byMac[m].ports == []
    ensures var h := LinkAll(Graph(t0, []), rows);
      KeepsBase(t0, h.table) && PortsInv(t0, rows, h.table) && EdgesInv(t0, rows, h.edges)
    decreases |rows|
  {
    var g0 := Graph(t0, []);
    if rows == [] {
      assert forall m :: m in t0.byMac ==> SameBase(t0.byMac[m], t0.byMac[m]);
    } else {
      var p, r := rows[..|rows| - 1], rows[|rows| - 1];
      assert rows == p + [r];
      LinkAllInvariants(t0, p);
      var g := LinkAll(g0, p);
      LinkSnoc(g0, p, r);
      KeepsBaseStep(t0, g, r);
      PortsStep(t0, p, g, r);
      EdgesStep(t0, p, g, r);
    }
  }

  // ---- port order ----

  /** The ports of device `m` after the port-and-link pass over `rows`. */
  function PortsAfter(t0: DeviceTable, rows: seq<Record>, m: string): seq<Port>
    requires WellFormed(t0) && m in t0.byMac
  {
    LinkAll(Graph(t0, []), rows).table.byMac[m].ports
  }

  /** A step only appends to a device's ports. */
  lemma PortsOnlyGrow(g: Graph, r: Record, m: string)
    requires m in g.table.byMac
    ensures m in LinkRow(g, r).table.byMac
    ensures var a, b := g.table.byMac[m].ports, LinkRow(g, r).table.byMac[m].ports;
      |a| <= |b| && a == b[..|a|]
  {
  }

  lemma PortsSnoc(t0: DeviceTable, p: seq<Record>, r: Record, m: string)
    requires WellFormed(t0) && m in t0.byMac
    ensures var a, b := PortsAfter(t0, p, m), PortsAfter(t0, p + [r], m);
      |a| <= |b| && a == b[..|a|]
  {
    LinkSnoc(Graph(t0, []), p, r);
    PortsOnlyGrow(LinkAll(Graph(t0, []), p), r, m);
  }

  lemma PrefixTrans<T>(a: seq<T>, b: seq<T>, c: seq<T>)
    requires |a| <= |b| && a == b[..|a|] && |b| <= |c| && b == c[..|b|]
    ensures |a| <= |c| && a == c[..|a|]
  {
  }

  /** The ports of a device after a prefix of the rows are a prefix of its final ports. */
  lemma {:induction false} PortsGrowByAppending(t0: DeviceTable, rows: seq<Record>, i: nat, m: string)
    requires WellFormed(t0) && m in t0.byMac && i <= |rows|
    ensures var a, b := PortsAfter(t0, rows[..i], m), PortsAfter(t0, rows, m);
      |a| <= |b| && a == b[..|a|]
    decreases |rows|
  {
    if i < |rows| {
      var p, r := rows[..|rows| - 1], rows[|rows| - 1];
      assert p[..i] == rows[..i];
      assert rows == p + [r];
      PortsGrowByAppending(t0, p, i, m);
      PortsSnoc(t0, p, r, m);
      PrefixTrans(PortsAfter(t0, rows[..i], m), PortsAfter(t0, p, m), PortsAfter(t0, rows, m));
    } else {
      assert rows[..i] == rows;
    }
  }

  /** A port of a device after some rows carries the id of one of those rows for that device. */
  lemma PortIdFromEarlierRow(t0: DeviceTable, p: seq<Record>, t: DeviceTable, m: string, id: string)
    requires PortsInv(t0, p, t) && m in t.byMac && HasPort(t.byMac[m].ports, id)
    ensures exists k :: 0 <= k < |p| && p[k].mac == m && p[k].portId == id
  {
    var j :| 0 <= j < |t.byMac[m].ports| && t.byMac[m].ports[j].id == id;
    assert PortFrom(t0, p, m, t.byMac[m].ports[j]);
  }

  /** The first row with a port id for a registered device appends that port. */
  lemma FirstPortRowAppends(t0: DeviceTable, rows: seq<Record>, k: nat)
    requires WellFormed(t0) && forall m :: m in t0.byMac ==> t0.byMac[m].ports == []
    requires k < |rows| && FirstPortRow(rows, k) && rows[k].mac != "" && rows[k].mac in t0.byMac
    ensures PortsAfter(t0, rows[..k + 1], rows[k].mac) == PortsAfter(t0, rows[..k], rows[k].mac) + [NewPort(t0.byMac, rows[k])]
  {
    var p, r := rows[..k], rows[k];
    var g := LinkAll(Graph(t0, []), p);
    assert rows[..k + 1] == p + [r];
    LinkAllInvariants(t0, p);
    if HasPort(g.table.byMac[r.mac].ports, r.portId) {
      PortIdFromEarlierRow(t0, p, g.table, r.mac, r.portId);
      assert false;
    }
    LinkSnoc(Graph(t0, []), p, r);
    NewPortStable(t0, g.table, r);
  }

  /** A port id carried by an earlier row of a registered device is already listed. */
  lemma EarlierPortListed(t0: DeviceTable, rows: seq<Record>, k1: nat, k2: nat)
    requires WellFormed(t0) && forall m :: m in t0.byMac ==> t0.byMac[m].ports == []
    requires k1 < k2 <= |rows| && rows[k1].mac != "" && rows[k1].mac in t0.byMac && rows[k1].portId != ""
    ensures HasPort(PortsAfter(t0, rows[..k2], rows[k1].mac), rows[k1].portId)
  {
    LinkAllInvariants(t0, rows[..k2]);
    assert rows[..k2][k1] == rows[k1];
  }

  lemma PortAppendedAfter(a: seq<Port>, q: Port, b: seq<Port>, c: seq<Port>, id: string)
    requires HasPort(a, id) && b == a + [q] && |b| <= |c| && b == c[..|b|]
    ensures exists j1, j2 :: 0 <= j1 < j2 < |c| && c[j1].id == id && c[j2] == q
  {
    var j1 :| 0 <= j1 < |a| && a[j1].id == id;
    assert b[j1] == a[j1] && b[|a|] == q;
    assert c[j1] == b[j1] && c[|a|] == b[|a|];
  }

  /**
    A device's ports come in the order of the rows that first carry their
    ids: of two such rows for one registered device, the earlier row's port
    is listed before the later row's.
  */
  lemma PortsInFirstRowOrder(t0: DeviceTable, rows: seq<Record>, k1: nat, k2: nat)
    requires WellFormed(t0) && forall m :: m in t0.byMac ==> t0.byMac[m].ports == []
    requires k1 < k2 < |rows| && FirstPortRow(rows, k1) && FirstPortRow(rows, k2)
    requires rows[k1].mac == rows[k2].mac && rows[k1].mac != "" && rows[k1].mac in t0.byMac
    ensures var ports := PortsAfter(t0, rows, rows[k1].mac);
      exists j1, j2 :: 0 <= j1 < j2 < |ports| && ports[j1].id == rows[k1].portId && ports[j2].id == rows[k2].portId
  {
    var m := rows[k1].mac;
    EarlierPortListed(t0, rows, k1, k2);
    FirstPortRowAppends(t0, rows, k2);
    PortsGrowByAppending(t0, rows, k2 + 1, m);
    PortAppendedAfter(PortsAfter(t0, rows[..k2], m), NewPort(t0.byMac, rows[k2]), PortsAfter(t0, rows[..k2 + 1], m),
                      PortsAfter(t0, rows, m), rows[k1].portId);
  }

  // ---- edge order ----

  /** The edges after the port-and-link pass over `rows`. */
  function EdgesAfter(t0: DeviceTable, rows: seq<Record>): seq<Edge>
    requires WellFormed(t0)
  {
    LinkAll(Graph(t0, []), rows).edges
  }

  /** A step only appends to the edges. */
  lemma EdgesOnlyGrow(g: Graph, r: Record)
    ensures var a, b := g.edges, LinkRow(g, r).edges;
      |a| <= |b| && a == b[..|a|]
  {
  }

  lemma EdgesSnoc(t0: DeviceTable, p: seq<Record>, r: Record)
    requires WellFormed(t0)
    ensures var a, b := EdgesAfter(t0, p), EdgesAfter(t0, p + [r]);
      |a| <= |b| && a == b[..|a|]
  {
    LinkSnoc(Graph(t0, []), p, r);
    EdgesOnlyGrow(LinkAll(Graph(t0, []), p), r);
  }

  /** The edges after a prefix of the rows are a prefix of the final edges. */
  lemma {:induction false} EdgesGrowByAppending(t0: DeviceTable, rows: seq<Record>, i: nat)
    requires WellFormed(t0) && i <= |rows|
    ensures var a, b := EdgesAfter(t0, rows[..i]), EdgesAfter(t0, rows);
      |a| <= |b| && a == b[..|a|]
    decreases |rows|
  {
    if i < |rows| {
      var p, r := rows[..|rows| - 1], rows[|rows| - 1];
      assert p[..i] == rows[..i];
      assert rows == p + [r];
      EdgesGrowByAppending(t0, p, i);
      EdgesSnoc(t0, p, r);
      PrefixTrans(EdgesAfter(t0, rows[..i]), EdgesAfter(t0, p), EdgesAfter(t0, rows));
    } else {
      assert rows[..i] == rows;
    }
  }

  /** An edge id already present comes from an earlier edge-yielding row. */
  lemma EdgeIdFromEarlierRow(t0: DeviceTable, p: seq<Record>, edges: seq<Edge>, id: string)
    requires EdgesInv(t0, p, edges) && HasEdge(edges, id)
    ensures exists k :: 0 <= k < |p| && YieldsEdge(t0.byMac, p[k]) && EdgeIdOf(p[k]) == id
  {
    var j :| 0 <= j < |edges| && edges[j].id == id;
    assert EdgeFrom(t0, p, edges[j]);
  }

  /** The first edge-yielding row with its id appends its edge. */
  lemma FirstEdgeRowAppends(t0: DeviceTable, rows: seq<Record>, k: nat)
    requires WellFormed(t0) && forall m :: m in t0.byMac ==> t0.byMac[m].ports == []
    requires k < |rows| && FirstEdgeRow(t0.byMac, rows, k)
    ensures EdgesAfter(t0, rows[..k + 1]) == EdgesAfter(t0, rows[..k]) + [NewEdge(rows[k])]
  {
    var p, r := rows[..k], rows[k];
    var g := LinkAll(Graph(t0, []), p);
    assert rows[..k + 1] == p + [r];
    LinkAllInvariants(t0, p);
    if HasEdge(g.edges, EdgeIdOf(r)) {
      EdgeIdFromEarlierRow(t0, p, g.edges, EdgeIdOf(r));
      assert false;
    }
    LinkSnoc(Graph(t0, []), p, r);
  }

  /** An edge id of an earlier edge-yielding row is already listed. */
  lemma EarlierEdgeListed(t0: DeviceTable, rows: seq<Record>, k1: nat, k2: nat)
    requires WellFormed(t0) && forall m :: m in t0.byMac ==> t0.byMac[m].ports == []
    requires k1 < k2 <= |rows| && YieldsEdge(t0.byMac, rows[k1])
    ensures HasEdge(EdgesAfter(t0, rows[..k2]), EdgeIdOf(rows[k1]))
  {
    LinkAllInvariants(t0, rows[..k2]);
    assert rows[..k2][k1] == rows[k1];
  }

  lemma EdgeAppendedAfter(a: seq<Edge>, e: Edge, b: seq<Edge>, c: seq<Edge>, id: string)
    requires HasEdge(a, id) && b == a + [e] && |b| <= |c| && b == c[..|b|]
    ensures exists j1, j2 :: 0 <= j1 < j2 < |c| && c[j1].id == id && c[j2] == e
  {
    var j1 :| 0 <= j1 < |a| && a[j1].id == id;
    assert b[j1] == a[j1] && b[|a|] == e;
    assert c[j1] == b[j1] && c[|a|] == b[|a|];
  }

  /** Edges come in the order of the first edge-yielding rows with their ids. */
  lemma EdgesInFirstRowOrder(t0: DeviceTable, rows: seq<Record>, k1: nat, k2: nat)
    requires WellFormed(t0) && forall m :: m in t0.byMac ==> t0.byMac[m].ports == []
    requires k1 < k2 < |rows| && FirstEdgeRow(t0.byMac, rows, k1) && FirstEdgeRow(t0.byMac, rows, k2)
    ensures var edges := EdgesAfter(t0, rows);
      exists j1, j2 :: 0 <= j1 < j2 < |edges| && edges[j1].id == EdgeIdOf(rows[k1]) && edges[j2].id == EdgeIdOf(rows[k2])
  {
    EarlierEdgeListed(t0, rows, k1, k2);
    FirstEdgeRowAppends(t0, rows, k2);
    EdgesGrowByAppending(t0, rows, k2 + 1);
    EdgeAppendedAfter(EdgesAfter(t0, rows[..k2]), NewEdge(rows[k2]), EdgesAfter(t0, rows[..k2 + 1]),
                      EdgesAfter(t0, rows), EdgeIdOf(rows[k1]));
  }
}
