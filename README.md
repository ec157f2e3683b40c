# PROFINET topology builder — Dafny model

This project models `processCSVData` from `src/utils/dataProcessor.js`. The
function turns a CSV export of a PROFINET network scan into a graph. The
graph has one node per device, keyed by MAC address, and one edge per active
link between two known devices. It works in three steps:

1. **Registration loop.** Every row that has both a device type and a MAC
   registers a device under that MAC, unless the MAC is already registered.
   The device's display name is the station name with its `.profinet…`
   suffix removed, or the device type when the row has no station name.
   The IP and manufacturer default to `-`. The status is `Ok` when the run
   state is `Ok`, and `Error` otherwise.
2. **Port-and-link loop.** Every row whose MAC is registered can add two
   things:
   - a port to that device, when the row has a port id and the device has
     no port with that id yet;
   - an edge `MAC-Remote_MAC-Port_ID`, when the port is `Up`, the remote MAC
     is registered and no edge with that id exists yet.

   A port's remote name is, in order of preference: the registered remote
   device's display name, the stripped `Remote_Station` field, or `-`.
3. **Finalisation.** Each device becomes a node, in insertion order, with
   its port count and one of three styles:
   - Green: three or more ports;
   - Blue: fewer than three ports and the display name `fo020-fo050`;
   - Pink: fewer than three ports and any other display name.

The model has two layers:

- **Specification functions.** `Topology.RegisterAll` and
  `Topology.LinkAll` are left folds over the row sequence. Their per-row
  steps are `RegisterRow` (lines 41-60), `AddPort` (80-97), `AddEdge`
  (100-113) and `LinkRow` (76-114). These steps have no contracts of their
  own: they are specified through the two folds and the lemmas about them.
  `Topology.Finalize` maps the finished table to nodes, and `Topology.Build`
  composes the two passes and `Finalize` into a `Snapshot` of nodes and
  edges.
- **Imperative code.** `DataProcessor` holds methods whose loops mirror the
  source's `forEach` loops, each proved equal to the matching fold.

The folds' properties are proved as lemmas in `RegistrationFacts`,
`LinkingFacts` and `BuildFacts`. The `.profinet` regex is modelled exactly,
line terminators included, in `StationName`.

Modelling choices:

- The JavaScript `Map` becomes `DeviceTable`. It holds a `map` from MAC to
  device plus a `seq` of MACs in insertion order, because `Map` iterates in
  insertion order.
- The `Set` of edge objects becomes a `seq<Edge>` in insertion order. Its
  elements are distinct objects, so membership is only ever tested through
  the id scan at line 102.
- Every CSV field is a `string`. The empty string stands for a missing or
  empty field, because JavaScript treats both as false.

## Model

| member | source | states |
|---|---|---|
| StationName.StripProfinet | src/utils/dataProcessor.js:45 | the result is a prefix of the input. It equals the input exactly when `/\.profinet.*$/` does not match. Otherwise the regex matches at the cut point and at no earlier position |
| StationName.StripIdempotent | src/utils/dataProcessor.js:45 | stripping a second time changes nothing |
| StationName.StripCutsAtFirstOccurrence | src/utils/dataProcessor.js:45 | for a name without line terminators, the cut is at the first occurrence of `.profinet`. The remaining name does not contain `.profinet`. The name is left unchanged exactly when it has no occurrence |
| StationName.StripExample | src/utils/dataProcessor.js:45 | `fo1.profinet.x` becomes `fo1`, and `sw1` is unchanged |
| Records.DisplayName | src/utils/dataProcessor.js:44-46 | the stripped station name when there is one, otherwise the device type. When a station name is given, the name is a prefix of it |
| Records.NewDevice | src/utils/dataProcessor.js:48-58 | the device has the row's MAC and type, the display name and no ports. The IP and manufacturer are the row's values or `-` when empty. The status is `Ok` if and only if the run state is `Ok`, and `Error` otherwise |
| Records.RemoteDeviceName | src/utils/dataProcessor.js:82-88 | the three-way resolution order: the registered remote device's name, else the stripped remote station, else `-` |
| Records.NewPort | src/utils/dataProcessor.js:90-96 | the port id, plus the defaults `Port <id>`, `Down` and `-`, and the resolved remote name |
| Records.NewEdge | src/utils/dataProcessor.js:101-111 | the id is `MAC-Remote_MAC-Port_ID`. Source and target are the two MACs. The target port defaults to `-` |
| Records.Classify | src/utils/dataProcessor.js:119-140 | Green if and only if there are at least 3 ports. Blue if and only if there are fewer than 3 and the name is `fo020-fo050`. Pink if and only if there are fewer than 3 and the name is anything else |
| Records.ToNode | src/utils/dataProcessor.js:117-155 | the node id is the MAC, `portCount` is the number of ports, the data is the device, and the style follows the classification |
| Records.EdgeIdInjective | src/utils/dataProcessor.js:101 | when the MACs have equal lengths, equal edge ids imply equal (MAC, remote MAC, port) triples |
| Records.ReverseEdgeIdDiffers | src/utils/dataProcessor.js:101 | the row for the reverse direction of a link gets a different edge id (MACs of equal length) |
| Records.EdgeIdCollision | src/utils/dataProcessor.js:101 | when MACs contain `-`, two different links can share one edge id |
| Topology.RegisterAll | src/utils/dataProcessor.js:30-62 | the registration fold yields a well-formed table: the order lists each MAC once, is exactly the map's keys, and every device sits under its own MAC with no ports yet |
| Topology.LinkAll | src/utils/dataProcessor.js:65-115 | the port-and-link fold keeps the table well formed and never adds, removes or reorders a registered device |
| Topology.Finalize | src/utils/dataProcessor.js:117-156 | one node per device in insertion order: node `i` is `ToNode` of the device under the `i`-th MAC, and a MAC is a node id if and only if it is registered |
| Topology.Build | src/utils/dataProcessor.js:16-158 | the node ids are the registered MACs in registration order, one node each |
| RegistrationFacts.RegisteredMacs | src/utils/dataProcessor.js:41-42 | a MAC is registered if and only if some row with a non-empty device type carries that (non-empty) MAC |
| RegistrationFacts.FirstRowWins | src/utils/dataProcessor.js:41-60 | the device under a MAC is the one built from the first row that registers it |
| RegistrationFacts.RegisteredDevicesComeFromFirstRows | src/utils/dataProcessor.js:42-59 | every registered device was built from the first registering row for its MAC |
| RegistrationFacts.RegistrationOrder | src/utils/dataProcessor.js:42-48 | MACs first registered by earlier rows come earlier in the insertion order |
| LinkingFacts.LinkAllInvariants | src/utils/dataProcessor.js:65-115 | the second loop keeps every device attribute other than the ports. It lists each port id of a device once, built from the first row carrying it, and lists every such row's port. It keeps edge ids distinct, builds each edge from the first active row with its id, and gives every active row between registered devices an edge |
| BuildFacts.NodesAreRegisteredDevices | src/utils/dataProcessor.js:117-118 | the node ids are distinct, and a MAC is a node id if and only if some row with a non-empty device type carries that (non-empty) MAC |
| BuildFacts.NodesInFirstRegistrationOrder | src/utils/dataProcessor.js:117 | nodes come in the order of the rows that first register them |
| BuildFacts.NodeAttributesFromFirstRow | src/utils/dataProcessor.js:44-58 | every node's attributes other than its ports come from the first row registering its MAC |
| BuildFacts.PortsDeduplicated | src/utils/dataProcessor.js:80 | no node lists two ports with the same id |
| BuildFacts.PortsFromFirstRows | src/utils/dataProcessor.js:80-97 | every listed port was built from the first row with that device's MAC and that port id |
| BuildFacts.EveryPortListed | src/utils/dataProcessor.js:76-80 | every row with a registered MAC and a port id has that port listed on its node |
| LinkingFacts.PortsInFirstRowOrder | src/utils/dataProcessor.js:80-97 | of two rows that first carry port ids for one registered device, the earlier row's port comes first in the device's port list |
| LinkingFacts.EdgesInFirstRowOrder | src/utils/dataProcessor.js:100-113 | of two rows that first yield their edge ids, the earlier row's edge comes first in the edge list |
| BuildFacts.NodePortsInFirstRowOrder | src/utils/dataProcessor.js:80-97 | a node's ports are listed in the order of the rows that first carry their ids |
| BuildFacts.BuildEdgesInFirstRowOrder | src/utils/dataProcessor.js:100-113 | the output edges come in the order of the rows that first yield their ids |
| BuildFacts.NoDanglingEdges | src/utils/dataProcessor.js:100-106 | both ends of every edge are node ids |
| BuildFacts.EdgeIdsUnique | src/utils/dataProcessor.js:101-102 | edge ids are pairwise distinct |
| BuildFacts.EdgesFromFirstRows | src/utils/dataProcessor.js:100-112 | every edge was built from the first row with its id whose link is `Up` between two registered devices |
| BuildFacts.EveryActiveLinkHasEdge | src/utils/dataProcessor.js:100-113 | every row whose link is `Up` between two registered devices has an edge with its id |
| Scenarios.RowWithoutMacGivesNoDevice | src/utils/dataProcessor.js:41 | a row with a device type but no MAC yields no node |
| Scenarios.LinkToUnknownDeviceGivesNoEdge | src/utils/dataProcessor.js:100 | an `Up` link to a MAC that no row registers yields no edge |
| Scenarios.TwoDeviceBuild | src/utils/dataProcessor.js:30-158 | for a PLC `AA` with one port linked up to switch `BB`, and three switch rows (port 1 linked up back to `AA`, ports 2 and 3 unlinked), whatever the station names: two nodes `AA` and `BB`; the PLC has one port, the switch three and is Green; the PLC's port and the switch's port 1 give the other device's display name as their remote; the edges are exactly the two built from the linked rows, with distinct ids |
| Scenarios.TwoDeviceScenario | src/utils/dataProcessor.js:30-158 | the same rows with station names `fo1.profinet.x` and `sw1`: two nodes, the PLC named `fo1` and Pink, the switch with three ports and Green, and two edges |
| Scenarios.BothDirectionsGiveTwoEdges | src/utils/dataProcessor.js:100-112 | a link reported from both ends, with MACs of equal length, yields two distinct edges |
| DataProcessor.RegisterDevices | src/utils/dataProcessor.js:30-62 | the loop computes `RegisterAll`. The registered MACs are exactly those of the registering rows, and the first row wins |
| DataProcessor.ResolvePortsAndLinks | src/utils/dataProcessor.js:65-115 | the loop computes `LinkAll` from the registered table with no edges. The device order and the set of MACs are unchanged |
| DataProcessor.ProcessCsvData | src/utils/dataProcessor.js:3-163 | a failed fetch gives no nodes and no edges. Otherwise the result is `Build(rows)`, with no dangling edges, unique edge ids and no duplicate port ids |

## Left out

- Fetch and parsing (`src/utils/dataProcessor.js:5-14`): the HTTP fetch, the `response.ok` test and the Papa Parse CSV parser are I/O and a foreign library. `ProcessCsvData` receives the parsed rows, or `None` for any failure before the loops.
- The `catch` (`:159-162`) is modelled only as "a failure gives an empty result". No exception can arise in the modelled loops, and logging to the console is I/O.
- The `connectionCount` pass (`:18-27`) is left out: nothing reads the map it fills.
- Presentation constants in the node objects (`type`, `size`, the fill and stroke colours, `lineWidth`, `opacity`) are left out. The style is the three-valued `Style`.
- Missing versus empty fields: a missing CSV column and an empty one are both the empty string. The source's template literal would print `undefined` into an edge id when `Port_ID` is missing. The model writes the empty string there.
- Object identity: the mutation of `device.data.ports` through a shared reference is modelled as replacing the device in the map. No other alias of a device exists in the source, so the two coincide.
- Records.EdgeIdInjective: assumes MACs of equal length. Without that, ids can collide (`Records.EdgeIdCollision`), and the source then drops the second edge.
- Scenarios.BothDirectionsGiveTwoEdges: assumes MACs of equal length, for the same reason.
- Searching and filtering nodes and the user-interface files are not part of this model.
