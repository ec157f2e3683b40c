/**
  The values the topology builder reads and produces: one parsed CSV row,
  and the device, port, edge and node records built from rows.

  Every CSV field is a string; the empty string stands for a missing field
  (JavaScript treats both as falsy, so `x || d` picks `d` for either).
*/
module Records {
  import StationName

  /** One CSV row, one field per recognised column. */
  datatype Record = Record(
    nameOfStation: string,
    ipAddress: string,
    deviceType: string,
    mac: string,
    manufacturerName: string,
    runState: string,
    portId: string,
    portDesc: string,
    remotePortId: string,
    remoteStation: string,
    remoteMac: string,
    portStatus: string)

  datatype Port = Port(
    id: string,
    desc: string,
    status: string,
    remoteDevice: string,
    remotePort: string)

  /** The `data` part of a registered device; the device's `id` is its `mac`. */
  datatype Device = Device(
    mac: string,
    nameOfStation: string,
    deviceType: string,
    ip: string,
    manufacturer: string,
    status: string,
    ports: seq<Port>)

  datatype Edge = Edge(
    id: string,
    source: string,
    target: string,
    sourcePort: string,
    targetPort: string)

  /**
    The three node styles: Green for devices with three or more ports;
    below three ports, Blue for the display name "fo020-fo050" and Pink
    for any other name.
    The concrete colours are presentation only.
  */
  datatype Style = Green | Blue | Pink

  datatype Node = Node(id: string, data: Device, portCount: nat, style: Style)

  /** JavaScript `s || d` on a string. */
  function OrDefault(s: string, d: string): string {
    if s != "" then s else d
  }

  /** The device attributes differ only in their ports. */
  predicate SameBase(a: Device, b: Device) {
    a.(ports := []) == b.(ports := [])
  }

  /** The row carries what a device needs to be registered. */
  predicate Registers(r: Record) {
    r.deviceType != "" && r.mac != ""
  }

  /** The display name: the station name without its ".profinet…" suffix, or the device type. */
  function DisplayName(r: Record): (name: string)
    ensures r.nameOfStation == "" ==> name == r.deviceType
    ensures r.nameOfStation != "" ==> name == StationName.StripProfinet(r.nameOfStation)
    ensures r.nameOfStation != "" ==> name == r.nameOfStation[..|name|]
  {
    if r.nameOfStation != "" then StationName.StripProfinet(r.nameOfStation) else r.deviceType
  }

  /** The device a registering row creates, with no ports yet. */
  function NewDevice(r: Record): (d: Device)
    ensures d.mac == r.mac && d.deviceType == r.deviceType && d.ports == []
    ensures d.nameOfStation == DisplayName(r)
    ensures d.ip != "" && d.manufacturer != ""
    ensures r.ipAddress != "" ==> d.ip == r.ipAddress
    ensures r.ipAddress == "" ==> d.ip == "-"
    ensures r.manufacturerName != "" ==> d.manufacturer == r.manufacturerName
    ensures r.manufacturerName == "" ==> d.manufacturer == "-"
    ensures d.status == "Ok" <==> r.runState == "Ok"
    ensures d.status != "Ok" ==> d.status == "Error"
  {
    Device(
      r.mac,
      DisplayName(r),
      r.deviceType,
      OrDefault(r.ipAddress, "-"),
      OrDefault(r.manufacturerName, "-"),
      if r.runState == "Ok" then "Ok" else "Error",
      [])
  }

  /**
    The remote end's name, resolved in order: the registered remote device's
    display name, else the stripped remote station field, else "-".
  */
  function RemoteDeviceName(devices: map<string, Device>, r: Record): (name: string)
    ensures r.remoteMac != "" && r.remoteMac in devices ==> name == devices[r.remoteMac].nameOfStation
    ensures !(r.remoteMac != "" && r.remoteMac in devices) && r.remoteStation != "" ==>
              name == StationName.StripProfinet(r.remoteStation)
    ensures !(r.remoteMac != "" && r.remoteMac in devices) && r.remoteStation == "" ==> name == "-"
  {
    if r.remoteMac != "" && r.remoteMac in devices then devices[r.remoteMac].nameOfStation
    else if r.remoteStation != "" then StationName.StripProfinet(r.remoteStation)
    else "-"
  }

  /** The port a row contributes to its device. */
  function NewPort(devices: map<string, Device>, r: Record): (p: Port)
    ensures p.id == r.portId
    ensures p.remoteDevice == RemoteDeviceName(devices, r)
    ensures p.desc == (if r.portDesc != "" then r.portDesc else "Port " + r.portId)
    ensures p.status == (if r.portStatus != "" then r.portStatus else "Down")
    ensures p.remotePort == (if r.remotePortId != "" then r.remotePortId else "-")
  {
    Port(
      r.portId,
      OrDefault(r.portDesc, "Port " + r.portId),
      OrDefault(r.portStatus, "Down"),
      RemoteDeviceName(devices, r),
      OrDefault(r.remotePortId, "-"))
  }

  /** The composite edge id `MAC-Remote_MAC-Port_ID`. */
  function EdgeId(mac: string, remoteMac: string, portId: string): string {
    mac + "-" + remoteMac + "-" + portId
  }

  /** The edge a linking row contributes. */
  function NewEdge(r: Record): (e: Edge)
    ensures e.id == EdgeId(r.mac, r.remoteMac, r.portId)
    ensures e.source == r.mac && e.target == r.remoteMac && e.sourcePort == r.portId
    ensures e.targetPort == (if r.remotePortId != "" then r.remotePortId else "-")
  {
    Edge(EdgeId(r.mac, r.remoteMac, r.portId), r.mac, r.remoteMac, r.portId, OrDefault(r.remotePortId, "-"))
  }

  /** The three-way style classification of a finished device. */
  function Classify(portCount: nat, name: string): (s: Style)
    ensures s == Green <==> portCount >= 3
    ensures s == Blue <==> portCount < 3 && name == "fo020-fo050"
    ensures s == Pink <==> portCount < 3 && name != "fo020-fo050"
  {
    if portCount >= 3 then Green
    else if name == "fo020-fo050" then Blue
    else Pink
  }

  /** A finished device as the renderer receives it. */
  function ToNode(d: Device): (n: Node)
    ensures n.id == d.mac && n.data == d && n.portCount == |d.ports|
    ensures n.style == Green <==> |d.ports| >= 3
    ensures n.style == Blue <==> |d.ports| < 3 && d.nameOfStation == "fo020-fo050"
  {
    var count := |d.ports|;
    Node(d.mac, d, count, Classify(count, d.nameOfStation))
  }

  /**
    Edge ids are unambiguous when the MACs have fixed lengths (as hardware
    addresses written in one notation do): equal ids mean equal triples.
  */
  lemma EdgeIdInjective(m1: string, r1: string, p1: string, m2: string, r2: string, p2: string)
    requires |m1| == |m2| && |r1| == |r2|
    requires EdgeId(m1, r1, p1) == EdgeId(m2, r2, p2)
    ensures m1 == m2 && r1 == r2 && p1 == p2
  {
    var id := EdgeId(m1, r1, p1);
    assert id == m1 + "-" + r1 + "-" + p1;
    assert id == m2 + "-" + r2 + "-" + p2;
    assert m1 == id[..|m1|] == m2;
    assert r1 == id[|m1| + 1..|m1| + 1 + |r1|] == r2;
    assert p1 == id[|m1| + |r1| + 2..] == p2;
  }

  /** With equal-length MACs, the reverse-direction row yields a different id. */
  lemma ReverseEdgeIdDiffers(a: string, b: string, p: string, q: string)
    requires |a| == |b| && a != b
    ensures EdgeId(a, b, p) != EdgeId(b, a, q)
  {
    if EdgeId(a, b, p) == EdgeId(b, a, q) {
      EdgeIdInjective(a, b, p, b, a, q);
    }
  }

  /** Without that assumption two different links can share an id, since MACs may contain '-'. */
  lemma EdgeIdCollision()
    ensures EdgeId("A-B", "C", "1") == EdgeId("A", "B-C", "1")
    ensures EdgeId("X", "X-X", "1") == EdgeId("X-X", "X", "1")
  {
  }
}
