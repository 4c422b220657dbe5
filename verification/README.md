# Congestion-aware LEO/GEO satellite routing, modelled in Dafny

This project models the routing core of a satellite-network simulator. Low-earth-orbit
(LEO) satellites, ground stations and geostationary (GEO) relays forward packets hop
by hop.

- **Arbiters** (`arbiter_*.dfy`, `candidate_scan.dfy`). Every node's arbiter picks the
  next hop from three candidates per target.
  - A LEO satellite skips candidates whose arbiter asks for a detour (congestion).
  - When all candidates are detouring, the satellite hands the packet to its GEO
    relay over the inter-layer link (ILL). The relay walks the sender's first-choice
    chain down to the first satellite that is not detouring.
  - A ground station falls back to its nearest satellite.
  - A traffic-class arbiter sends class A on the shortest path and class B around
    congestion, away from the sender. Class C goes via GEO. Default-class traffic
    is handed to the plain LEO arbiter.
- **Jam-area classifiers** (`arbiter_leo.dfy`, `arbiter_leo_gs.dfy`). They turn the
  receive rates of a satellite's inter-satellite links (ISL) into a detour verdict.
  Thresholds use hysteresis, and a shared registry of traffic-jam areas is kept.
  There are two revisions: the LEO arbiter's timed areas, and the combined LEO/GS
  arbiter's flag areas.
- **Receive rate** (`receive_rate.dfy`, `topology.dfy`). This is the 32-bit byte
  counter every device keeps, plus the periodic refresh that turns it into bits
  per second.
- **Codecs** (`machine_ints.dfy`, `ts_header.dfy`, `tos_header.dfy`,
  `from_header.dfy`, `tags.dfy`, `traffic_class.dfy`):
  - the id/sequence/timestamp header, with its TOS and TOS+sender extensions;
  - the flow-TOS and sender tags;
  - the TOS → traffic-class mapping.
- **Snapshot loading** (`forwarding_state.dfy`, `helpers.dfy`). Two helper revisions
  validate `fstate_<t>` forwarding snapshots and `ills_<t>` LEO→GEO bindings and
  install them into the arbiters.
- **Offline generator** (`fstate_gen.dfy`, `ills_gen.dfy`, `dynamic_state.dfy`,
  `work_partition.dfy`):
  - the exit satellite, the top-3 ISL neighbours, the top-3 entry satellites
    between ground stations, and delta writing;
  - the nearest-GEO (ILL) choice;
  - the partition of time steps over threads;
  - ISL interface numbering, the generated time range, the GSL visibility rule and
    algorithm dispatch.
- **Visualisation indices** (`satviz_links.dfy`): the satellite list, the orbit links
  and the +Grid links.

Conventions of the model:

- Every way the source stops is an `Abort` of the `Outcome` type (`outcome.dfy`):
  `NS_ABORT_MSG`, an uncaught exception, a Python `raise`, a null arbiter, and an
  out-of-range vector index (undefined behaviour in C++). These inputs are not
  excluded by preconditions.
- Configured `double` factors are exact positive rationals (`Ratio`).
- Positions are integer coordinates. The strict `distance < radius` test is done on
  squares.
- Shortest-path and link distances in the generator are whole metres, or
  unreachable.

Where the code does something other than its own comments, names and declared
sizes say, the model follows the code:

- receive rates are truncated to whole gigabits per second;
- the sender header writes one byte, though its declared size counts four;
- the combined LEO/GS arbiter judges its GSL interface too, though its comment says
  GSL traffic does not count;
- the combined arbiter's scheduled flip marks a copy of the jam area, so no area
  ever becomes deletable, though the comment at the deletion says it must wait one
  jam update interval.

Each of these is a row under Findings, which also lists the other places where the
code departs from its evident intent. Separately, the GEO relay walk has no step
bound; "## Left out" says how the model reports a walk that would never end.

## Model

| member | source | states |
|---|---|---|
| MachineInts.LowByte | ns3-sat-sim/simulator/contrib/basic-sim/model/apps/id-seq-ts-tos-from-header.cc:59 | the byte written for a 32-bit value is that value modulo 256 |
| MachineInts.ToInt32 | ns3-sat-sim/simulator/contrib/satellite-network/model/arbiter-traffic-leo.cc:87-89 | reading the 64-bit from-tag into a 32-bit id keeps the value modulo 2^32 and is the identity below 2^31 |
| MachineInts.FromInt32 | ns3-sat-sim/simulator/contrib/basic-sim/model/apps/from-tag.cc:25-27 | a signed 32-bit id stored as an unsigned pattern is congruent to it modulo 2^32 |
| MachineInts.Int32PatternRoundTrip | ns3-sat-sim/simulator/contrib/basic-sim/model/apps/from-tag.cc:25-31 | storing a signed 32-bit node id and reading it back as a signed 32-bit value returns the same id, -1 included |
| MachineInts.EncodeBE | ns3-sat-sim/simulator/contrib/basic-sim/model/apps/id-seq-ts-header.cc:52-57 | network-order encoding of a timestamp yields exactly the requested number of bytes |
| MachineInts.DecodeBE | ns3-sat-sim/simulator/contrib/basic-sim/model/apps/id-seq-ts-header.cc:59-65 | a network-order read of n bytes is below 256^n |
| MachineInts.DecodeEncodeBE | ns3-sat-sim/simulator/contrib/basic-sim/model/apps/id-seq-ts-header.cc:52-65 | decoding the network-order bytes of any value that fits returns the value |
| MachineInts.EncodeDecodeBE | ns3-sat-sim/simulator/contrib/basic-sim/model/apps/id-seq-ts-header.cc:52-65 | re-encoding what was decoded gives back the same bytes, so the encoding is a bijection |
| MachineInts.EncodeLE | ns3-sat-sim/simulator/contrib/basic-sim/model/apps/from-tag.cc:41-43 | tag-buffer encoding yields exactly the requested number of bytes |
| MachineInts.DecodeLE | ns3-sat-sim/simulator/contrib/basic-sim/model/apps/from-tag.cc:45-47 | a tag-buffer read of n bytes is below 256^n |
| MachineInts.DecodeEncodeLE | ns3-sat-sim/simulator/contrib/basic-sim/model/apps/from-tag.cc:41-47 | decoding the tag-buffer bytes of any value that fits returns the value |
| MachineInts.EncodeDecodeLE | ns3-sat-sim/simulator/contrib/basic-sim/model/apps/from-tag.cc:41-47 | re-encoding decoded tag bytes gives back the same bytes |
| TrafficClasses.ClassTos | ns3-sat-sim/simulator/contrib/basic-sim/model/apps/traffic-classify-tos.cc:14-28 | every class has one of the four TOS codes and only the default class has routine TOS 0 |
| TrafficClasses.Tos2TrafficClass | ns3-sat-sim/simulator/contrib/basic-sim/model/apps/traffic-classify-tos.cc:14-28 | a TOS byte is classified exactly when it is one of 0x10, 0x08, 0x04, 0x00 (anything else aborts), and the class maps back to that byte |
| TrafficClasses.TrafficClass2String | ns3-sat-sim/simulator/contrib/basic-sim/model/apps/traffic-classify-tos.cc:30-46 | every class has a non-empty name and "Default" names only the default class |
| TrafficClasses.TosRoundTrip | ns3-sat-sim/simulator/contrib/basic-sim/model/apps/traffic-classify-tos.cc:14-28 | class to TOS to class is the identity, and TOS to class to TOS is the identity on accepted bytes |
| TrafficClasses.ClassesDistinguishable | ns3-sat-sim/simulator/contrib/basic-sim/model/apps/traffic-classify-tos.cc:14-46 | distinct classes have distinct TOS codes and distinct names |
| TrafficClasses.TrafficClassVecEnumerates | ns3-sat-sim/simulator/contrib/basic-sim/model/apps/traffic-classify-tos.cc:11 | the class vector lists every class exactly once |
| TsHeaders.Serialize | ns3-sat-sim/simulator/contrib/basic-sim/model/apps/id-seq-ts-header.cc:52-57 | the header is the 8-byte network-order timestamp followed by the parent fields, and its length is the declared size |
| TsHeaders.Deserialize | ns3-sat-sim/simulator/contrib/basic-sim/model/apps/id-seq-ts-header.cc:59-65 | reading succeeds exactly when the buffer holds 8 + parent bytes, consumes that many, and re-serialising the result reproduces the consumed bytes |
| TsHeaders.RoundTrip | ns3-sat-sim/simulator/contrib/basic-sim/model/apps/id-seq-ts-header.cc:47-65 | deserialising a serialised header, whatever follows, returns the header and consumes and reports its full size |
| TosHeaders.NewTosHeader | ns3-sat-sim/simulator/contrib/basic-sim/model/apps/id-seq-ts-tos-header.cc:26-30 | a fresh header carries the current time and a TOS that classifies as the default class |
| TosHeaders.SetTos | ns3-sat-sim/simulator/contrib/basic-sim/model/apps/id-seq-ts-tos-header.cc:32-35 | setting the TOS changes only the TOS |
| TosHeaders.Serialize | ns3-sat-sim/simulator/contrib/basic-sim/model/apps/id-seq-ts-tos-header.cc:56-61 | the TOS byte comes first, then the timestamp header; the length is the declared size |
| TosHeaders.Deserialize | ns3-sat-sim/simulator/contrib/basic-sim/model/apps/id-seq-ts-tos-header.cc:63-69 | reading succeeds exactly when the buffer is long enough; the TOS is the first byte and re-serialising reproduces the consumed bytes |
| TosHeaders.RoundTrip | ns3-sat-sim/simulator/contrib/basic-sim/model/apps/id-seq-ts-tos-header.cc:51-69 | a serialised TOS header reads back unchanged, consuming and reporting its declared size |
| TosHeaders.HeaderTos2TrafficClass | ns3-sat-sim/simulator/contrib/basic-sim/model/apps/id-seq-ts-tos-header.cc:72-86 | the header file's copy of the mapping accepts exactly the four TOS codes |
| TosHeaders.HeaderTrafficClass2String | ns3-sat-sim/simulator/contrib/basic-sim/model/apps/id-seq-ts-tos-header.cc:88-103 | the header file's copy of the naming gives every class a non-empty name |
| TosHeaders.DuplicateMappingAgrees | ns3-sat-sim/simulator/contrib/basic-sim/model/apps/id-seq-ts-tos-header.cc:15-103 | the mapping, naming and class vector duplicated in the header file agree with the classifier's on every input |
| FromHeaders.NewFromHeader | ns3-sat-sim/simulator/contrib/basic-sim/model/apps/id-seq-ts-tos-from-header.cc:26-30 | a fresh header has sender -1, TOS 0 and the current time |
| FromHeaders.SetFrom | ns3-sat-sim/simulator/contrib/basic-sim/model/apps/id-seq-ts-tos-from-header.cc:32-35 | setting the sender changes only the sender |
| FromHeaders.Serialize | ns3-sat-sim/simulator/contrib/basic-sim/model/apps/id-seq-ts-tos-from-header.cc:56-61 | as written: one byte, the sender modulo 256, then the TOS header, which is three bytes fewer than the declared size |
| FromHeaders.Deserialize | ns3-sat-sim/simulator/contrib/basic-sim/model/apps/id-seq-ts-tos-from-header.cc:63-69 | as written: the sender is read back from one byte, so it lies in 0..255, and the reported size exceeds the bytes consumed by three |
| FromHeaders.RoundTripAsWritten | ns3-sat-sim/simulator/contrib/basic-sim/model/apps/id-seq-ts-tos-from-header.cc:51-69 | as written, a header reads back with its sender reduced to its low byte and a size report three bytes past what was read |
| FromHeaders.FromIdNotPreserved | ns3-sat-sim/simulator/contrib/basic-sim/model/apps/id-seq-ts-tos-from-header.cc:56-69 | the default sender -1 reads back as 255 and node 300 as 44 |
| FromHeaders.SerializeFourBytes | ns3-sat-sim/simulator/contrib/basic-sim/model/apps/id-seq-ts-tos-from-header.cc:51-61 | corrected: a 4-byte sender, then the TOS header, for exactly the declared size |
| FromHeaders.DeserializeFourBytes | ns3-sat-sim/simulator/contrib/basic-sim/model/apps/id-seq-ts-tos-from-header.cc:51-69 | corrected: consumes exactly the declared size, and re-serialising reproduces the consumed bytes |
| FromHeaders.RoundTripFourBytes | ns3-sat-sim/simulator/contrib/basic-sim/model/apps/id-seq-ts-tos-from-header.cc:51-69 | corrected: every header, any sender included, reads back unchanged and the consumed and reported sizes agree |
| FlowTosTags.Serialize | ns3-sat-sim/simulator/contrib/basic-sim/model/apps/flow-tos-tag.cc:37-43 | the tag occupies exactly its declared one byte |
| FlowTosTags.Deserialize | ns3-sat-sim/simulator/contrib/basic-sim/model/apps/flow-tos-tag.cc:45-47 | reading needs one byte, and the tag read re-serialises to that byte |
| FlowTosTags.RoundTrip | ns3-sat-sim/simulator/contrib/basic-sim/model/apps/flow-tos-tag.cc:37-47 | a serialised flow-TOS tag reads back unchanged |
| FromTags.DefaultIsMinusOne | ns3-sat-sim/simulator/contrib/basic-sim/model/apps/from-tag.cc:20 | the default tag's 64-bit value is -1 modulo 2^64, so it reads as sender -1 |
| FromTags.Serialize | ns3-sat-sim/simulator/contrib/basic-sim/model/apps/from-tag.cc:37-43 | the tag occupies its declared eight bytes, which decode to its value |
| FromTags.Deserialize | ns3-sat-sim/simulator/contrib/basic-sim/model/apps/from-tag.cc:45-47 | reading needs eight bytes, and the tag read re-serialises to them |
| FromTags.RoundTrip | ns3-sat-sim/simulator/contrib/basic-sim/model/apps/from-tag.cc:37-47 | a serialised from-tag reads back unchanged |
| ReceiveRate.Bits32 | ns3-sat-sim/simulator/contrib/satellite-network/model/receive-datarate-device.cc:22 | the bit count is eight times the byte count whenever that fits in 32 bits |
| ReceiveRate.RateAsWritten | ns3-sat-sim/simulator/contrib/satellite-network/model/receive-datarate-device.cc:20-25 | as written: a zero interval aborts; the rate is a whole number of Gbit/s, namely floor(bits / interval) times 10^9, and it is zero exactly when fewer bits than nanoseconds arrived |
| ReceiveRate.RateScaledFirst | ns3-sat-sim/simulator/contrib/satellite-network/model/receive-datarate-device.cc:20-25 | corrected: the rate is the exact bits per second rounded down, within one bit per second |
| ReceiveRate.AsWrittenBelowScaledFirst | ns3-sat-sim/simulator/contrib/satellite-network/model/receive-datarate-device.cc:22 | the computed rate never exceeds the exact rate and falls short of it by less than 1 Gbit/s |
| ReceiveRate.HundredMegabitsReadAsZero | ns3-sat-sim/simulator/contrib/satellite-network/model/receive-datarate-device.cc:22 | 12 500 bytes per millisecond (100 Mbit/s) is reported as 0 |
| ReceiveRate.Update | ns3-sat-sim/simulator/contrib/satellite-network/model/receive-datarate-device.cc:20-25 | a refresh clears the byte counter and stores the computed rate |
| ReceiveRate.SecondUpdateIsZero | ns3-sat-sim/simulator/contrib/satellite-network/model/receive-datarate-device.cc:20-25 | with no traffic in between, a second refresh reports zero, and the rate read between refreshes is the last one computed |
| ReceiveRate.UpdateTimed | ns3-sat-sim/simulator/contrib/satellite-network/model/receive-datarate-device.cc:27-39 | the timed refresh is the plain refresh, and it reschedules at now + interval exactly when that is before the end of the run |
| Topology.RefreshDevice | ns3-sat-sim/simulator/contrib/satellite-network/model/arbiter-leo.cc:303-329 | refreshing a device keeps its kind and ISL peer and replaces its counter by the computed rate |
| Topology.RefreshFrom | ns3-sat-sim/simulator/contrib/satellite-network/model/arbiter-leo.cc:312-327 | a refresh from an interface onward succeeds exactly when every interface is a GSL, or also an ISL where allowed, and refreshes each one in place |
| Topology.RefreshNode | ns3-sat-sim/simulator/contrib/satellite-network/model/arbiter-leo.cc:303-329 | a node refresh succeeds exactly for an allowed interface count with only GSL/ISL devices after the loopback; it keeps the loopback and leaves every counter at zero |
| CandidateScan.FirstUsable | ns3-sat-sim/simulator/contrib/satellite-network/model/arbiter-leo.cc:95-104 | the chosen candidate is the first that is the target or has a calm arbiter, all before it detouring; no choice exactly when all detour; a null arbiter aborts only if reached before any usable one |
| CandidateScan.NoDanglingNoAbort | ns3-sat-sim/simulator/contrib/satellite-network/model/arbiter-leo.cc:95-104 | a candidate list whose nodes all have arbiters never aborts |
| ArbiterGeo.Push | ns3-sat-sim/simulator/contrib/satellite-network/model/arbiter-geo.cc:90-98 | recording a packet adds exactly its sender under a fresh key and keeps every other entry; a key already present aborts |
| ArbiterGeo.FirstChoice | ns3-sat-sim/simulator/contrib/satellite-network/model/arbiter-geo.cc:58-68 | a node's first choice exists exactly when the node and its list toward the target exist and the list is non-empty |
| ArbiterGeo.WalkFrom | ns3-sat-sim/simulator/contrib/satellite-network/model/arbiter-geo.cc:58-86 | the relay hands down over the ILL pair; at the target it returns the last satellite passed; otherwise it stops only at a calm satellite or at a detouring one of this relay whose first choice is the target; a satellite bound to another relay aborts |
| ArbiterGeo.FindNextHop | ns3-sat-sim/simulator/contrib/satellite-network/model/arbiter-geo.cc:52-87 | a sender whose first choice is the target aborts; otherwise the hop is a settled satellite, and a calm first choice is taken at once |
| ArbiterGeo.Decide | ns3-sat-sim/simulator/contrib/satellite-network/model/arbiter-geo.cc:36-49 | a packet never recorded aborts; a recorded one is routed from its recorded sender |
| ArbiterGeo.PushThenDecide | ns3-sat-sim/simulator/contrib/satellite-network/model/arbiter-geo.cc:36-98 | after a satellite records a packet the relay routes it from that satellite, and recording the same packet again aborts |
| ArbiterGeo.CycleNeverEnds | ns3-sat-sim/simulator/contrib/satellite-network/model/arbiter-geo.cc:58-68 | two detouring satellites naming each other make the walk endless, which the model reports |
| ArbiterLeo.Decide | ns3-sat-sim/simulator/contrib/satellite-network/model/arbiter-leo.cc:84-122 | bad ids abort; otherwise either the first usable candidate (earlier ones detouring, relays untouched) or, when all candidates detour, the ILL hop to the bound relay with only that relay recording this satellite as sender; a first usable candidate is always returned, and when all detour the decision succeeds exactly when the relay exists and has not yet recorded the packet |
| ArbiterLeo.CalmNeighboursTakeFirst | ns3-sat-sim/simulator/contrib/satellite-network/model/arbiter-leo.cc:95-104 | a calm first candidate is taken and no relay is touched |
| ArbiterLeo.FallbackRecordsSender | ns3-sat-sim/simulator/contrib/satellite-network/model/arbiter-leo.cc:106-121 | after a fallback to GEO the relay routes the packet from this satellite |
| ArbiterLeo.InJamArea | ns3-sat-sim/simulator/contrib/satellite-network/model/arbiter-leo.cc:145-165 | a position is in the jam area exactly when it is strictly inside the radius of some registered area |
| ArbiterLeo.Classify | ns3-sat-sim/simulator/contrib/satellite-network/model/arbiter-leo.cc:214-241 | below the jam-to-normal ratio the satellite calms down; a detour stays a detour above it; a fresh detour uses the in-area or non-jam ratio; an area is founded only by a detour outside every area |
| ArbiterLeo.ClassifyMonotone | ns3-sat-sim/simulator/contrib/satellite-network/model/arbiter-leo.cc:214-241 | more traffic never turns a detour off |
| ArbiterLeo.IslLoad | ns3-sat-sim/simulator/contrib/satellite-network/model/arbiter-leo.cc:196-210 | summing the load succeeds exactly when every interface is a GSL or ISL; no more ISLs are counted than interfaces exist; no ISL means no load |
| ArbiterLeo.GslTrafficIgnored | ns3-sat-sim/simulator/contrib/satellite-network/model/arbiter-leo.cc:196-210 | traffic on a GSL interface has no effect on the ISL load |
| ArbiterLeo.AgeOne | ns3-sat-sim/simulator/contrib/satellite-network/model/arbiter-leo.cc:250-296 | ageing an area keeps its centre and the other satellites' entries, records this satellite exactly when inside, and refreshes its entry time on a detour or a first entry |
| ArbiterLeo.KeptIndices | ns3-sat-sim/simulator/contrib/satellite-network/model/arbiter-leo.cc:250-296 | the areas a visit keeps are, in increasing order, exactly those the satellite has not been calm in, inside and recorded, for a whole jam update interval |
| ArbiterLeo.AgeAreas | ns3-sat-sim/simulator/contrib/satellite-network/model/arbiter-leo.cc:250-296 | a visit removes exactly as many areas as expire, adds none, and every area left records this satellite exactly when it is inside |
| ArbiterLeo.AgeAreasFollowsKept | ns3-sat-sim/simulator/contrib/satellite-network/model/arbiter-leo.cc:250-296 | the i-th area left is the i-th kept area aged by the visit, so exactly the expiring areas are erased and the rest stay in order, none repeated |
| ArbiterLeo.AgedAreasComeFromRegistry | ns3-sat-sim/simulator/contrib/satellite-network/model/arbiter-leo.cc:250-296 | the i-th surviving area is the i-th kept original area, differing at most in this satellite's entry |
| ArbiterLeo.NoDeletionWhileDetouring | ns3-sat-sim/simulator/contrib/satellite-network/model/arbiter-leo.cc:250-296 | while detouring no area is removed, and this satellite's entries are stamped with the current time |
| ArbiterLeo.LoadVerdict | ns3-sat-sim/simulator/contrib/satellite-network/model/arbiter-leo.cc:186-241 | the verdict exists exactly when interfaces 1.. are GSL-class or ISL, and is the hysteresis applied to the summed ISL load and capacity |
| ArbiterLeo.ApplyVerdict | ns3-sat-sim/simulator/contrib/satellite-network/model/arbiter-leo.cc:220-296 | founding aborts exactly when the registry already holds 30 areas; otherwise the founded area, centred here and entered now, is the new last area, and the registry is then aged by the visit |
| ArbiterLeo.UpdateDetour | ns3-sat-sim/simulator/contrib/satellite-network/model/arbiter-leo.cc:179-301 | a node without exactly 7 GSL/ISL interfaces aborts; the new detour flag is the hysteresis verdict on the ISL load (nothing else in the arbiter changes); a verdict that founds an area appends the area centred here and entered now, and aborts exactly when 30 areas already exist; the registry is the aged one |
| ArbiterLeo.FoundedAreaSurvives | ns3-sat-sim/simulator/contrib/satellite-network/model/arbiter-leo.cc:224-232 | the registry grows only by the area this satellite just founded |
| ArbiterLeo.UpdateState | ns3-sat-sim/simulator/contrib/satellite-network/model/arbiter-leo.cc:171-177 | a state update is a rate refresh followed by the detour update on the refreshed devices, rescheduled one interval later |
| ArbiterLeo.NewLeoArbiter | ns3-sat-sim/simulator/contrib/satellite-network/model/arbiter-leo.cc:39-55 | an uninitialised rate interval aborts; otherwise construction is a calm arbiter with its id, relay and table running its first state update at once; it succeeds for 7 GSL/ISL interfaces and a registry below 30 areas |
| ArbiterGs.VisibleEnd | ns3-sat-sim/simulator/contrib/satellite-network/model/arbiter-gs.cc:66-71 | the scan stops at the first -1 (no satellite) entry |
| ArbiterGs.FirstCalm | ns3-sat-sim/simulator/contrib/satellite-network/model/arbiter-gs.cc:66-79 | the choice is the first visible satellite calm on the interface toward this station, all before it detouring; no choice means all visible ones detour; a null arbiter aborts |
| ArbiterGs.Decide | ns3-sat-sim/simulator/contrib/satellite-network/model/arbiter-gs.cc:56-81 | bad ids abort; the hop is the first visible satellite calm on the interface toward this station (all before it detouring), or the nearest satellite when every visible one detours; with valid ids, a non-empty list and an arbiter for every visible satellite the decision succeeds |
| ArbiterGs.NearestWhenAllDetour | ns3-sat-sim/simulator/contrib/satellite-network/model/arbiter-gs.cc:80 | when every candidate detours the station uses its nearest satellite |
| ArbiterGs.TakesFirstCalm | ns3-sat-sim/simulator/contrib/satellite-network/model/arbiter-gs.cc:68-75 | the first visible satellite calm on the interface toward this station is taken, whatever follows it |
| ArbiterGs.AllDetouringNone | ns3-sat-sim/simulator/contrib/satellite-network/model/arbiter-gs.cc:66-79 | a scan over detouring satellites finds nothing |
| ArbiterGs.UpdateReceiveDatarate | ns3-sat-sim/simulator/contrib/satellite-network/model/arbiter-gs.cc:96-118 | a station refresh succeeds exactly with two interfaces and a GSL at 1; it refreshes the GSL and reschedules one interval later |
| ArbiterGs.NewGsArbiter | ns3-sat-sim/simulator/contrib/satellite-network/model/arbiter-gs.cc:30-43 | an uninitialised interval aborts; otherwise construction succeeds exactly for two interfaces with a GSL at 1, and is the first refresh |
| ArbiterTrafficLeo.Sender | ns3-sat-sim/simulator/contrib/satellite-network/model/arbiter-traffic-leo.cc:87-89 | a packet without a from-tag reads as sent by -1 |
| ArbiterTrafficLeo.FirstNotFrom | ns3-sat-sim/simulator/contrib/satellite-network/model/arbiter-traffic-leo.cc:93-101 | the default class-B choice is the first candidate from the given index on whose node is not the sender; none exactly when every one is the sender |
| ArbiterTrafficLeo.FirstCalmNotFrom | ns3-sat-sim/simulator/contrib/satellite-network/model/arbiter-traffic-leo.cc:103-111 | the class-B choice is the first later candidate that is calm and not the sender; a missing arbiter aborts exactly when reached |
| ArbiterTrafficLeo.DetourClassB | ns3-sat-sim/simulator/contrib/satellite-network/model/arbiter-traffic-leo.cc:82-113 | class B takes the first later candidate that is calm and not the sender; failing that, the first later candidate that is not the sender; failing that, the default tuple; it aborts exactly when it reaches a missing arbiter before a calm non-sender |
| ArbiterTrafficLeo.Decide | ns3-sat-sim/simulator/contrib/satellite-network/model/arbiter-traffic-leo.cc:34-121 | untagged packets succeed only as TTL-expired ICMP on the shortest path; the default class behaves exactly like the LEO arbiter; when the first candidate detours, class A still takes it, class B takes the tagged detour of DetourClassB, and class C goes via GEO; only the default class touches relays |
| ArbiterTrafficLeo.CalmFirstForEveryClass | ns3-sat-sim/simulator/contrib/satellite-network/model/arbiter-traffic-leo.cc:71-75 | for every tagged class, a calm first candidate is taken |
| ArbiterTrafficLeo.ClassANeverDetours | ns3-sat-sim/simulator/contrib/satellite-network/model/arbiter-traffic-leo.cc:78-81 | class A always takes the first candidate, congested or not |
| ArbiterTrafficLeo.ClassBTakesFirstCalmOther | ns3-sat-sim/simulator/contrib/satellite-network/model/arbiter-traffic-leo.cc:82-113 | a class B packet whose first candidate detours is tagged and sent to the first later candidate that is calm and not its sender |
| ArbiterTrafficLeo.UntaggedSenderIsMinusOne | ns3-sat-sim/simulator/contrib/basic-sim/model/apps/from-tag.cc:20 | an untagged packet carries the default sender -1 |
| ArbiterLeoGs.ScanNodes | ns3-sat-sim/simulator/contrib/satellite-network/model/arbiter-leo-gs.cc:88-100 | the scan with node lookups agrees with the shared candidate scan whenever all candidate nodes exist |
| ArbiterLeoGs.Decide | ns3-sat-sim/simulator/contrib/satellite-network/model/arbiter-leo-gs.cc:79-131 | bad ids abort; a first usable candidate is always taken; when all detour, a satellite falls back to GEO, succeeding exactly when its relay exists and has not recorded the packet, and only that relay records this satellite as sender; a ground station falls back to its nearest satellite |
| ArbiterLeoGs.GroundStationFallsBackToNearest | ns3-sat-sim/simulator/contrib/satellite-network/model/arbiter-leo-gs.cc:121-126 | a ground station whose candidates all detour uses its nearest satellite |
| ArbiterLeoGs.AllDetouringScan | ns3-sat-sim/simulator/contrib/satellite-network/model/arbiter-leo-gs.cc:88-100 | a scan over detouring candidates finds nothing |
| ArbiterLeoGs.InAnyArea | ns3-sat-sim/simulator/contrib/satellite-network/model/arbiter-leo-gs.cc:154-169 | a node is in a jam area exactly when it is strictly within the radius of some area's owner |
| ArbiterLeoGs.EraseAround | ns3-sat-sim/simulator/contrib/satellite-network/model/arbiter-leo-gs.cc:282-295 | clearing removes exactly the clearable areas around this node and keeps the rest |
| ArbiterLeoGs.Judge | ns3-sat-sim/simulator/contrib/satellite-network/model/arbiter-leo-gs.cc:246-262 | an interface is hot exactly when its rate is at least the in-area or non-jam share of capacity; it is calm exactly when in an area, not hot and below the jam-to-normal share |
| ArbiterLeoGs.ZeroLoadDetours | ns3-sat-sim/simulator/contrib/satellite-network/model/arbiter-leo-gs.cc:229-262 | an interface with zero rate and zero capacity is judged hot |
| ArbiterLeoGs.ScanFrom | ns3-sat-sim/simulator/contrib/satellite-network/model/arbiter-leo-gs.cc:225-279 | the scan detours exactly when some judged interface is hot; otherwise it reports whether all were calm; it fails only on a device that is neither GSL nor ISL |
| ArbiterLeoGs.ScanCheckNeverFails | ns3-sat-sim/simulator/contrib/satellite-network/model/arbiter-leo-gs.cc:265-273 | the scan aborts only if some interface is neither GSL nor ISL |
| ArbiterLeoGs.UpdateDetourWith | ns3-sat-sim/simulator/contrib/satellite-network/model/arbiter-leo-gs.cc:187-310 | only 7 or 2 interfaces are accepted; the node detours exactly when some scanned interface is hot; a flip is scheduled exactly when the node detours outside every area, and then one area with a fresh id is added; with all interfaces GSL/ISL the update aborts exactly when that founding meets 30 areas; a node in an area with every scanned interface calm erases the clearable areas around it; in every other case the registry is unchanged |
| ArbiterLeoGs.UpdateKeepsWellFormed | ns3-sat-sim/simulator/contrib/satellite-network/model/arbiter-leo-gs.cc:282-306 | area ids stay unique and below the next id |
| ArbiterLeoGs.EraseKeepsWellFormed | ns3-sat-sim/simulator/contrib/satellite-network/model/arbiter-leo-gs.cc:282-295 | clearing keeps area ids unique and below the next id |
| ArbiterLeoGs.AsWrittenGslForcesDetour | ns3-sat-sim/simulator/contrib/satellite-network/model/arbiter-leo-gs.cc:229-262 | as written, any GSL interface in the scan makes the node detour |
| ArbiterLeoGs.AsWrittenGroundStationAlwaysDetours | ns3-sat-sim/simulator/contrib/satellite-network/model/arbiter-leo-gs.cc:187-310 | as written, every ground station detours at every update |
| ArbiterLeoGs.CorrectedGroundStationNeverDetours | ns3-sat-sim/simulator/contrib/satellite-network/model/arbiter-leo-gs.cc:229-235 | corrected: a ground station never detours and founds no area |
| ArbiterLeoGs.CorrectedCalmSatelliteClears | ns3-sat-sim/simulator/contrib/satellite-network/model/arbiter-leo-gs.cc:236-295 | corrected: a satellite in an area with calm ISLs stops detouring and clears the clearable areas around it |
| ArbiterLeoGs.Flip | ns3-sat-sim/simulator/contrib/satellite-network/model/arbiter-leo-gs.cc:175-177 | corrected: the scheduled flip marks exactly the area with that id as clearable and changes nothing else |
| ArbiterLeoGs.AsWrittenUpdateKeepsAreas | ns3-sat-sim/simulator/contrib/satellite-network/model/arbiter-leo-gs.cc:282-306 | as written, with no area clearable, an update keeps every area in order and founds only areas that are not clearable |
| ArbiterLeoGs.AsWrittenRegistryNeverShrinks | ns3-sat-sim/simulator/contrib/satellite-network/model/arbiter-leo-gs.cc:282-298 | as written, every run of updates keeps every existing area, and no area ever becomes clearable |
| ArbiterLeoGs.CorrectedFlipLetsAreaClear | ns3-sat-sim/simulator/contrib/satellite-network/model/arbiter-leo-gs.cc:282-287 | after the corrected flip an area around a clearing node is deleted; after the as-written flip it stays |
| ArbiterLeoGs.FlipKeepsWellFormed | ns3-sat-sim/simulator/contrib/satellite-network/model/arbiter-leo-gs.cc:175-177 | flipping keeps area ids unique and below the next id |
| ArbiterLeoGs.UpdateReceiveDatarate | ns3-sat-sim/simulator/contrib/satellite-network/model/arbiter-leo-gs.cc:312-341 | a refresh succeeds exactly with 7 or 2 GSL/ISL interfaces and refreshes each of them |
| ArbiterLeoGs.UpdateState | ns3-sat-sim/simulator/contrib/satellite-network/model/arbiter-leo-gs.cc:179-185 | a state update is a rate refresh followed by the detour update on the refreshed devices, rescheduled one interval later; only the detour flag of the arbiter changes; it succeeds for 7 or 2 GSL/ISL interfaces and a registry below 30 areas |
| ArbiterLeoGs.NewLeoGsArbiter | ns3-sat-sim/simulator/contrib/satellite-network/model/arbiter-leo-gs.cc:36-52 | an uninitialised rate interval aborts; otherwise construction is a calm arbiter with its id, relay and table running its first state update at once (only the older helper builds this arbiter, and it aborts first: `Helpers.OlderConstruct`) |
| ForwardingState.StoreTriple | ns3-sat-sim/simulator/contrib/satellite-network/helper/arbiter-leo-gs-geo-helper.cc:246 | the stored hop keeps the next node and shifts both interfaces past the loopback |
| ForwardingState.CheckTriple | ns3-sat-sim/simulator/contrib/satellite-network/helper/arbiter-leo-gs-geo-helper.cc:158-244 | a triple is accepted exactly when it passes every check: ids in range, all-or-none drop, interfaces existing, GSL to GSL, ISL to its exact peer |
| ForwardingState.ParseLine | ns3-sat-sim/simulator/contrib/satellite-network/helper/arbiter-leo-gs-geo-helper.cc:150-247 | a line is accepted exactly when valid; its current and target nodes are in range and its three hops are stored in order |
| ForwardingState.InitialTables | ns3-sat-sim/simulator/contrib/satellite-network/helper/arbiter-leo-gs-geo-helper.cc:90-106 | before the first snapshot every node has three placeholder hops (-2, -2, -2) toward every node |
| ForwardingState.Store | ns3-sat-sim/simulator/contrib/satellite-network/helper/arbiter-leo-gs-geo-helper.cc:248-254 | storing one line replaces exactly the list of its (current, target) pair |
| ForwardingState.ParseLines | ns3-sat-sim/simulator/contrib/satellite-network/helper/arbiter-leo-gs-geo-helper.cc:150-256 | a file parses exactly when every line is valid, line by line |
| ForwardingState.StoreAll | ns3-sat-sim/simulator/contrib/satellite-network/helper/arbiter-leo-gs-geo-helper.cc:248-254 | storing a snapshot keeps the table shape |
| ForwardingState.StoreAllIsLastWrite | ns3-sat-sim/simulator/contrib/satellite-network/helper/arbiter-leo-gs-geo-helper.cc:148-256 | after storing a snapshot each pair holds the list from the last line that names it, or its earlier list |
| ForwardingState.StoreAllIdempotent | ns3-sat-sim/simulator/contrib/satellite-network/helper/arbiter-leo-gs-geo-helper.cc:148-256 | loading the same snapshot twice equals loading it once |
| ForwardingState.LoadForwarding | ns3-sat-sim/simulator/contrib/satellite-network/helper/arbiter-leo-gs-geo-helper.cc:126-263 | loading succeeds exactly when every line is valid; a pair named by some line holds the three stored triples of the last line naming it, and a pair no line names keeps its list |
| ForwardingState.NotNamedKeeps | ns3-sat-sim/simulator/contrib/satellite-network/helper/arbiter-leo-gs-geo-helper.cc:148-256 | a pair no line names keeps its earlier list |
| ForwardingState.ApplyIllLine | ns3-sat-sim/simulator/contrib/satellite-network/helper/arbiter-leo-gs-geo-helper.cc:290-300 | an ILL line is accepted exactly when both ids are in range, and it rebinds only that satellite |
| ForwardingState.LoadIlls | ns3-sat-sim/simulator/contrib/satellite-network/helper/arbiter-leo-gs-geo-helper.cc:265-309 | an ILL file loads exactly when every line is valid; every satellite named in the file is bound to the GEO node of the last line naming it, and every other satellite keeps its binding |
| ForwardingState.LoadIllsIdempotent | ns3-sat-sim/simulator/contrib/satellite-network/helper/arbiter-leo-gs-geo-helper.cc:265-309 | loading the same ILL file twice gives the bindings of loading it once |
| ForwardingState.CurrentBindsToGeo | ns3-sat-sim/simulator/contrib/satellite-network/helper/arbiter-leo-gs-geo-helper.cc:300 | the current helper binds every satellite to a GEO relay node |
| ForwardingState.OlderBindsToGroundStation | ns3-sat-sim/simulator/contrib/satellite-network/helper/arbiter-leo-geo-helper.cc:253 | the older helper can bind a satellite to a ground-station node |
| ForwardingState.RevisionsAgreeIff | ns3-sat-sim/simulator/contrib/satellite-network/helper/arbiter-leo-geo-helper.cc:253 | the two helper revisions bind to the same node exactly when there are as many ground stations as GEO relays |
| ForwardingState.OlderStoresNodeAsInterface | ns3-sat-sim/simulator/contrib/satellite-network/helper/arbiter-leo-geo-helper.cc:203 | the older helper stores the next node id plus one as the remote interface |
| ForwardingState.StoredTripleRoundTrip | ns3-sat-sim/simulator/contrib/satellite-network/helper/arbiter-leo-gs-geo-helper.cc:246 | the current helper's stored hop gives back the file's triple |
| Helpers.TablesWithTables | ns3-sat-sim/simulator/contrib/satellite-network/helper/arbiter-leo-gs-geo-helper.cc:248-254 | installing tables into the satellites' and stations' arbiters and reading them back gives the same tables |
| Helpers.Install | ns3-sat-sim/simulator/contrib/satellite-network/helper/arbiter-leo-gs-geo-helper.cc:26-69 | the arbiters before their constructors' first updates: one per satellite, station and relay; tables start as placeholders, satellites unbound and calm, relays empty |
| Helpers.ConstructLeos | ns3-sat-sim/simulator/contrib/satellite-network/helper/arbiter-leo-gs-geo-helper.cc:39-44 | the satellite constructors, run in order on the shared registry: arbiters in place with placeholder tables and no relay; any satellite with the wrong interfaces, or an uninitialised interval, aborts; with 7 GSL/ISL interfaces each and room for one area per satellite, all succeed |
| Helpers.ConstructLeosStep | ns3-sat-sim/simulator/contrib/satellite-network/helper/arbiter-leo-gs-geo-helper.cc:39-44 | satellite i's arbiter is the one its constructor builds, and the later satellites are built on the registry that constructor leaves |
| Helpers.ConstructGss | ns3-sat-sim/simulator/contrib/satellite-network/helper/arbiter-leo-gs-geo-helper.cc:45-50 | the station constructors succeed exactly when the interval is initialised (if any station exists) and every station has two interfaces with a GSL at 1 |
| Helpers.InstallAndUpdate | ns3-sat-sim/simulator/contrib/satellite-network/helper/arbiter-leo-gs-geo-helper.cc:26-58 | installing through the constructors equals Install apart from the satellites' first detour flags; it aborts on an uninitialised interval, needs well-shaped interfaces, and succeeds when they are and there are at most 30 satellites |
| Helpers.NextUpdate | ns3-sat-sim/simulator/contrib/satellite-network/helper/arbiter-leo-gs-geo-helper.cc:108-124 | the next snapshot is loaded exactly when not static and before the end of the run, one interval later |
| Helpers.ApplyForwarding | ns3-sat-sim/simulator/contrib/satellite-network/helper/arbiter-leo-gs-geo-helper.cc:126-263 | loading a forwarding file into the arbiters succeeds exactly when every line is valid, equals the table load and leaves relay bindings alone |
| Helpers.ApplyIlls | ns3-sat-sim/simulator/contrib/satellite-network/helper/arbiter-leo-gs-geo-helper.cc:265-309 | loading an ILL file succeeds exactly when every line is valid, equals the binding load and leaves tables alone |
| Helpers.UpdateState | ns3-sat-sim/simulator/contrib/satellite-network/helper/arbiter-leo-gs-geo-helper.cc:108-124 | an update needs both files present and valid; it loads forwarding then ILLs and schedules the next update |
| Helpers.LoadedRelaysAreGeo | ns3-sat-sim/simulator/contrib/satellite-network/helper/arbiter-leo-gs-geo-helper.cc:290-300 | after loading, every satellite is unbound or bound to a GEO relay node |
| Helpers.LoadTimes | ns3-sat-sim/simulator/contrib/satellite-network/helper/arbiter-leo-gs-geo-helper.cc:108-124 | the snapshot times start at the start time |
| Helpers.LoadTimesAreMultiples | ns3-sat-sim/simulator/contrib/satellite-network/helper/arbiter-leo-gs-geo-helper.cc:115-121 | the snapshots loaded are at start + k times interval, all before the end, the last within one interval of it |
| Helpers.StaticLoadsOnce | ns3-sat-sim/simulator/contrib/satellite-network/helper/arbiter-leo-gs-geo-helper.cc:115 | a static run loads only the first snapshot |
| Helpers.OlderConstruct | ns3-sat-sim/simulator/contrib/satellite-network/helper/arbiter-leo-geo-helper.cc:9-46 | the older helper aborts whenever there is any satellite or station, since arbiters are created before initialisation |
| FstateGen.Insert | paper_routing/satellite_networks_state/satgen_GEO/dynamic_state/fstate_calculation.py:54 | inserting into a sorted candidate list keeps it sorted and adds exactly the new candidate |
| FstateGen.Sort | paper_routing/satellite_networks_state/satgen_GEO/dynamic_state/fstate_calculation.py:54 | sorting returns a sorted permutation of the candidates |
| FstateGen.TopThree | paper_routing/satellite_networks_state/satgen_GEO/dynamic_state/fstate_calculation.py:81-84 | the top list has min(3, n) entries |
| FstateGen.TopThreeAreSmallest | paper_routing/satellite_networks_state/satgen_GEO/dynamic_state/fstate_calculation.py:80-84 | the top list is sorted, a sub-multiset of the input, and no left-out candidate (counting copies) is before any kept one |
| FstateGen.Least | paper_routing/satellite_networks_state/satgen_GEO/dynamic_state/fstate_calculation.py:61-63 | the least candidate belongs to the list and is not after any other |
| FstateGen.Pad | paper_routing/satellite_networks_state/satgen_GEO/dynamic_state/fstate_calculation.py:59 | unused slots are drops (-1, -1, -1) |
| FstateGen.Possibilities | paper_routing/satellite_networks_state/satgen_GEO/dynamic_state/fstate_calculation.py:44-54 | the exit candidates are exactly the reachable satellites in range with distance ISL + GSL |
| FstateGen.Exit | paper_routing/satellite_networks_state/satgen_GEO/dynamic_state/fstate_calculation.py:61-63 | an exit, when there is one, is a satellite at finite distance |
| FstateGen.ExitIsLeastOffer | paper_routing/satellite_networks_state/satgen_GEO/dynamic_state/fstate_calculation.py:44-63 | there is no exit exactly when no satellite in range is reachable; otherwise the exit is an offered one not after any other |
| FstateGen.NeighbourCands | paper_routing/satellite_networks_state/satgen_GEO/dynamic_state/fstate_calculation.py:69-79 | one candidate per ISL neighbour, at edge length plus its distance to the exit, with both interface numbers |
| FstateGen.AsTriples | paper_routing/satellite_networks_state/satgen_GEO/dynamic_state/fstate_calculation.py:84 | a candidate is written as (neighbour, my interface, its interface) |
| FstateGen.SatToGs | paper_routing/satellite_networks_state/satgen_GEO/dynamic_state/fstate_calculation.py:38-92 | no exit gives three drops and infinite distance; the exit satellite lists the ground station on its GSL interface; any other lists its best three neighbours; the exit distance is recorded |
| FstateGen.SatToGsSlots | paper_routing/satellite_networks_state/satgen_GEO/dynamic_state/fstate_calculation.py:59-88 | each slot is a drop, the ground station in slot 0, or a real ISL neighbour |
| FstateGen.GsOfferUsesSatDistance | paper_routing/satellite_networks_state/satgen_GEO/dynamic_state/fstate_calculation.py:120-128 | a satellite in range of the source station offers exactly when it has a route to the destination, at GSL distance plus that recorded distance |
| FstateGen.GsPossibilities | paper_routing/satellite_networks_state/satgen_GEO/dynamic_state/fstate_calculation.py:118-129 | the entry candidates are exactly the offers of the satellites in range of the source station |
| FstateGen.GsPossibilitiesAreSatellites | paper_routing/satellite_networks_state/satgen_GEO/dynamic_state/fstate_calculation.py:118-128 | every entry candidate is a satellite |
| FstateGen.GsToGs | paper_routing/satellite_networks_state/satgen_GEO/dynamic_state/fstate_calculation.py:110-141 | three slots; every non-drop hop enters a satellite from interface 0 on that satellite's GSL interface for the station |
| FstateGen.GsTriples | paper_routing/satellite_networks_state/satgen_GEO/dynamic_state/fstate_calculation.py:135-141 | each chosen satellite is written with interface 0 and its GSL interface for the source station |
| FstateGen.GsToGsChoosesBest | paper_routing/satellite_networks_state/satgen_GEO/dynamic_state/fstate_calculation.py:129-141 | the station lists the best three entry satellites in order, then drops |
| FstateGen.SatRows | paper_routing/satellite_networks_state/satgen_GEO/dynamic_state/fstate_calculation.py:38-106 | every satellite row is well shaped and belongs to a satellite |
| FstateGen.GsRows | paper_routing/satellite_networks_state/satgen_GEO/dynamic_state/fstate_calculation.py:110-153 | every station row is well shaped and belongs to a station |
| FstateGen.GsRowsTo | paper_routing/satellite_networks_state/satgen_GEO/dynamic_state/fstate_calculation.py:111-153 | every row of one source station is well shaped |
| FstateGen.AllRows | paper_routing/satellite_networks_state/satgen_GEO/dynamic_state/fstate_calculation.py:34-153 | every generated row is well shaped |
| FstateGen.Line | paper_routing/satellite_networks_state/satgen_GEO/dynamic_state/fstate_calculation.py:100-105 | a line has eleven fields: current, target, then the three triples in order |
| FstateGen.Record | paper_routing/satellite_networks_state/satgen_GEO/dynamic_state/fstate_calculation.py:96-106 | the remembered state holds every row's next nodes under its pair, and nothing else |
| FstateGen.Written | paper_routing/satellite_networks_state/satgen_GEO/dynamic_state/fstate_calculation.py:99-105 | exactly the rows whose next nodes changed are written |
| FstateGen.Emit | paper_routing/satellite_networks_state/satgen_GEO/dynamic_state/fstate_calculation.py:99-106 | emission fails exactly when a previous state lacks a pair; it writes changed rows and remembers all |
| FstateGen.UnwrittenRowsKept | paper_routing/satellite_networks_state/satgen_GEO/dynamic_state/fstate_calculation.py:96-106 | a row not written had the same next nodes before |
| FstateGen.GeneratedLinesFitLoader | paper_routing/satellite_networks_state/satgen_GEO/dynamic_state/fstate_calculation.py:32-153 | every generated line passes the loader's shape checks: eleven fields, current and target distinct, target a station, each slot a drop or a real hop |
| FstateGen.WrittenLinesFit | paper_routing/satellite_networks_state/satgen_GEO/dynamic_state/fstate_calculation.py:99-105 | every written line of well-shaped rows passes the loader's shape checks |
| FstateGen.LineOfShapedRow | paper_routing/satellite_networks_state/satgen_GEO/dynamic_state/fstate_calculation.py:100-105 | the line of a well-shaped row passes the loader's shape checks |
| IllsGen.NearestGeo | paper_routing/satellite_networks_state/satgen_GEO/dynamic_state/ills_calculation.py:42-50 | the relay chosen is the nearest within the ILL range, lowest index on ties; -1 exactly when none is in range |
| IllsGen.ChoiceUnique | paper_routing/satellite_networks_state/satgen_GEO/dynamic_state/ills_calculation.py:44-50 | the nearest-relay choice is unique |
| IllsGen.CalculateIlls | paper_routing/satellite_networks_state/satgen_GEO/dynamic_state/ills_calculation.py:41-62 | succeeds exactly when every satellite has a relay in range (and a previous entry, if any); binds each to its nearest; writes exactly the changed bindings; per-relay counts sum to the satellite count |
| DynamicState.Dispatch | paper_routing/satellite_networks_state/stagen_GEO/dynamic_state/generate_dynamic_state.py:212-242 | only the one-only-over-ISLs algorithm is accepted; every other name raises |
| DynamicState.Times | paper_routing/satellite_networks_state/stagen_GEO/dynamic_state/generate_dynamic_state.py:36-59 | the generated times are offset + k times step, all before the end, covering it to within one step |
| DynamicState.GeneratedTimesAreLoaded | paper_routing/satellite_networks_state/stagen_GEO/dynamic_state/generate_dynamic_state.py:36-59 | the times the generator writes are exactly the times the simulator loads |
| DynamicState.ProgressDivisor | paper_routing/satellite_networks_state/stagen_GEO/dynamic_state/generate_dynamic_state.py:38-43 | corrected: the progress divisor is never zero |
| DynamicState.RunAsWritten | paper_routing/satellite_networks_state/stagen_GEO/dynamic_state/generate_dynamic_state.py:32-227 | as written: only an aligned empty range succeeds (with no times); a run with a step stops at its first step, on the zero progress divisor when short and quiet, on the `print(...) + str` of line 106 when verbose, and otherwise on calling the imported module at line 214 (or the ValueError of an unsupported algorithm) |
| DynamicState.Run | paper_routing/satellite_networks_state/stagen_GEO/dynamic_state/generate_dynamic_state.py:32-227 | corrected: a run succeeds exactly for a positive step, an aligned offset and the supported algorithm, and yields the generated times |
| DynamicState.ProgressSteps | paper_routing/satellite_networks_state/stagen_GEO/dynamic_state/generate_dynamic_state.py:38-43 | progress is printed at exactly the step indices divisible by the divisor |
| DynamicState.ShortRunStops | paper_routing/satellite_networks_state/stagen_GEO/dynamic_state/generate_dynamic_state.py:39 | a quiet five-step run aborts as written and succeeds with five times when corrected |
| DynamicState.VerboseRunStops | paper_routing/satellite_networks_state/stagen_GEO/dynamic_state/generate_dynamic_state.py:104-106 | a verbose run with at least one step aborts as written, whatever the algorithm; corrected, it yields every time step |
| DynamicState.ModuleCallStops | paper_routing/satellite_networks_state/stagen_GEO/dynamic_state/generate_dynamic_state.py:4-227 | a quiet run of ten or more steps of the supported algorithm stops as written at the call of the imported module; corrected, it yields all of its (at least ten) times |
| DynamicState.AsWrittenComputesNothing | paper_routing/satellite_networks_state/stagen_GEO/dynamic_state/generate_dynamic_state.py:32-227 | as written no input yields a time, while the corrected driver yields every time of each accepted non-empty run |
| DynamicState.NumberIsls | paper_routing/satellite_networks_state/stagen_GEO/dynamic_state/generate_dynamic_state.py:121-146 | numbering succeeds exactly when no ISL is too long; both directions of every ISL get an interface, and each satellite's count is its degree |
| DynamicState.InterfacesInListOrder | paper_routing/satellite_networks_state/stagen_GEO/dynamic_state/generate_dynamic_state.py:141-146 | an ISL's interface at each end is the number of earlier ISLs at that end |
| DynamicState.DistinctInterfaces | paper_routing/satellite_networks_state/stagen_GEO/dynamic_state/generate_dynamic_state.py:141-146 | two ISLs of the same satellite get distinct increasing interfaces, all below its count |
| DynamicState.CountIsDegree | paper_routing/satellite_networks_state/stagen_GEO/dynamic_state/generate_dynamic_state.py:144-145 | a satellite's ISL count is its degree in the ISL list |
| DynamicState.SatellitesInRange | paper_routing/satellite_networks_state/stagen_GEO/dynamic_state/generate_dynamic_state.py:177-195 | a satellite is listed exactly when within the GSL range (inclusive), with its distance, in id order |
| WorkPartition.BeforeClosedForm | paper_routing/satellite_networks_state/satgen_GEO/dynamic_state/helper_dynamic_state.py:84-96 | the steps before thread i are i times the base share plus one per earlier thread with an extra step |
| WorkPartition.SharesCoverRun | paper_routing/satellite_networks_state/satgen_GEO/dynamic_state/helper_dynamic_state.py:84-96 | the thread shares add up to the number of steps |
| WorkPartition.SharesBalanced | paper_routing/satellite_networks_state/satgen_GEO/dynamic_state/helper_dynamic_state.py:85-96 | shares never increase with the thread index and differ by at most one |
| WorkPartition.Partition | paper_routing/satellite_networks_state/satgen_GEO/dynamic_state/helper_dynamic_state.py:81-137 | partitioning fails exactly for a zero step or zero threads; otherwise one job per thread with its share, offset and end |
| WorkPartition.ThreadsOverlapByOneStep | paper_routing/satellite_networks_state/satgen_GEO/dynamic_state/helper_dynamic_state.py:122-137 | each thread starts where the previous one's steps end, and the previous one runs one step past that |
| WorkPartition.LastThreadEndsRun | paper_routing/satellite_networks_state/satgen_GEO/dynamic_state/helper_dynamic_state.py:122 | the last thread ends at the last whole step of the run |
| WorkPartition.EveryStepHasOneOwner | paper_routing/satellite_networks_state/satgen_GEO/dynamic_state/helper_dynamic_state.py:89-137 | every step lies in the share of exactly one thread |
| DynamicState.ThreadComputesNextOffset | paper_routing/satellite_networks_state/satgen_GEO/dynamic_state/helper_dynamic_state.py:119-124 | a thread other than the last computes its share plus one more step, which is the next thread's first step, so that step is computed twice |
| SatvizLinks.Decompose | paper_routing/ns3_experiments/traffic_matrix/satviz/util.py:53-58 | a satellite's list index gives back its orbit and position in the orbit |
| SatvizLinks.Layout | paper_routing/ns3_experiments/traffic_matrix/satviz/util.py:31-60 | the list has one entry per orbit and position, each at its own index |
| SatvizLinks.SatSlots | paper_routing/ns3_experiments/traffic_matrix/satviz/util.py:7-60 | the list raises ZeroDivisionError exactly when a phase difference is set, there are two or more orbits and no satellites per orbit; otherwise it has one entry per orbit and position, each at its own index |
| SatvizLinks.SlotAtIndex | paper_routing/ns3_experiments/traffic_matrix/satviz/util.py:7-60 | every orbit and position is listed at its index |
| SatvizLinks.OrbitLinks | paper_routing/ns3_experiments/traffic_matrix/satviz/util.py:62-83 | one orbit link per satellite, starting at it; zero satellites per orbit raises |
| SatvizLinks.NextInOrbitIsNextSlot | paper_routing/ns3_experiments/traffic_matrix/satviz/util.py:73-77 | the next satellite in the orbit is the next position, wrapping at the end |
| SatvizLinks.OrbitLinkStaysInOrbit | paper_routing/ns3_experiments/traffic_matrix/satviz/util.py:72-83 | an orbit link joins a satellite to the next one of the same orbit |
| SatvizLinks.GridLinksAsWritten | paper_routing/ns3_experiments/traffic_matrix/satviz/util.py:85-118 | as written: fewer than three orbits or positions raises; one link per satellite, all to the adjacent orbit |
| SatvizLinks.GridLinks | paper_routing/ns3_experiments/traffic_matrix/satviz/util.py:85-118 | corrected: two links per satellite, to the next in its orbit and to the adjacent orbit |
| SatvizLinks.SlotLinksJoinNeighbours | paper_routing/ns3_experiments/traffic_matrix/satviz/util.py:100-104 | both links of a satellite join it to a +Grid neighbour |
| SatvizLinks.GridLinksJoinNeighbours | paper_routing/ns3_experiments/traffic_matrix/satviz/util.py:97-118 | every corrected +Grid link joins two +Grid neighbours |
| SatvizLinks.AdjacentLeavesOrbit | paper_routing/ns3_experiments/traffic_matrix/satviz/util.py:104 | an adjacent-orbit link leaves the orbit |
| SatvizLinks.AsWrittenLinksLeaveTheOrbit | paper_routing/ns3_experiments/traffic_matrix/satviz/util.py:107-115 | as written, no +Grid link stays in its orbit |
| SatvizLinks.GridMissesSameOrbitLink | paper_routing/ns3_experiments/traffic_matrix/satviz/util.py:107-115 | the link between satellites 0 and 1 is missing as written and present when corrected |

## Left out

- Packet transport, sockets, ns-3 devices and the event scheduler. The model keeps what the arbiters read from them: detour flags, device kinds, counters and interface counts. Scheduling is a returned "next time" value.
- File reading and text parsing. Snapshot files are lists of integer fields. A missing file is `None`.
- Floating-point geometry: satellite orbits (SGP4), distances and Floyd–Warshall. The generator takes whole-metre distances and shortest-path lengths as inputs, and the arbiters take positions as integer coordinates.
- The thread pool of the generator. Only the partition into jobs is modelled.
- `ForwardToGEO` and `AddFromTag` of the traffic-class arbiter, and the per-interface `CheckIfNeedDetour(interface)`, are not defined in the files modelled. A class-C packet yields the result `ViaGeo`, the sender tag is left unchanged, and per-interface flags are an input.
- The algorithm module itself: its parts are modelled on their own inputs (`FstateGen`, `IllsGen`), since the driver as written never reaches them (Findings, line 214).
- The older combined helper aborts at construction on any non-empty network (`Helpers.OlderConstruct`), so its loaders are modelled only for their two Findings.
- WorkPartition.Partition: both the number of steps (`floor(simulation_end_time_ns / time_step_ns)`, line 84) and the per-thread base share (line 85) are computed in the source through a float division and floor. Both are modelled as integer division, which agrees while the run length in nanoseconds and the number of steps stay below 2^53.
- ArbiterTrafficLeo.DetourClassB: an uninitialised result tuple is modelled as `(0, 0, 0)`, the value a value-initialised tuple holds.
- The gap between generator and simulator when the run length is not a multiple of the interval. The last generator job ends, exclusively, at the last whole step, but the simulator still loads a snapshot at that time, and no file was written for it. DynamicState.GeneratedTimesAreLoaded relates one job's times to the simulator's times. The partition's end is stated by WorkPartition.LastThreadEndsRun.
- `FstateGen` operations require a well-formed snapshot (matrix sizes and node ranges), which the generator's construction guarantees and does not check.
- ArbiterGeo.WalkFrom: a walk that revisits a detouring satellite loops forever in the source. The model reports it as `Abort(WALK_NEVER_ENDS)` instead.
- Logging, statistics and verbose prints, except the two that can raise: the progress divisor and the verbose GEO-count line (both under Findings).

## Findings

| source | as written | input that shows it | evidently intended | confidence | as-written member | corrected member |
|---|---|---|---|---|---|---|
| ns3-sat-sim/simulator/contrib/basic-sim/model/apps/id-seq-ts-tos-from-header.cc:51-69 | the sender id is written and read as one byte, while the declared size counts four | sender -1 reads back as 255, sender 300 as 44; reading reports 3 bytes more than it consumed | write and read the 32-bit sender in four bytes | high (not executed) | FromHeaders.RoundTripAsWritten, FromHeaders.FromIdNotPreserved | FromHeaders.RoundTripFourBytes |
| ns3-sat-sim/simulator/contrib/satellite-network/model/arbiter-leo-gs.cc:229-262 | GSL interfaces get rate 0 and capacity 0 and are then judged with `0 >= 0 * ratio`, which is true | any ground station, whose only interface is a GSL, detours at every update; because the scan runs while `i < 6`, it also reaches a satellite's GSL at interface 5, so every satellite whose scan gets that far detours too | skip the GSL when judging | high (not executed) | ArbiterLeoGs.AsWrittenGslForcesDetour, ArbiterLeoGs.AsWrittenGroundStationAlwaysDetours | ArbiterLeoGs.CorrectedGroundStationNeverDetours, ArbiterLeoGs.CorrectedCalmSatelliteClears |
| ns3-sat-sim/simulator/contrib/satellite-network/model/arbiter-leo-gs.cc:298 | the area pair is passed to `Simulator::Schedule`, which stores a copy, and `ScheduleTraficJamArea` (lines 175-177) marks that copy | every founded area stays unclearable, so no area is ever deleted; the 31st founding in a run hits the abort at line 305 | mark the stored area clearable one jam update interval after founding it, as the comment at line 285 requires | medium: rests on ns-3 copying scheduled arguments (not executed) | ArbiterLeoGs.AsWrittenRegistryNeverShrinks, ArbiterLeoGs.AsWrittenUpdateKeepsAreas | ArbiterLeoGs.Flip, ArbiterLeoGs.CorrectedFlipLetsAreaClear |
| paper_routing/satellite_networks_state/stagen_GEO/dynamic_state/generate_dynamic_state.py:39 | progress test `i % int(floor(total) / 10.0)` | a quiet run of 5 steps: the divisor is 0 and the modulo raises | print progress for short runs as well | high (not executed) | DynamicState.RunAsWritten, DynamicState.ShortRunStops | DynamicState.Run |
| paper_routing/satellite_networks_state/stagen_GEO/dynamic_state/generate_dynamic_state.py:106 | `print("  > GEOSatellites.......... ")+ str(len(GEOsatellites))` adds a string to the `None` that `print` returns | any verbose run with offset < end: Python 3 raises `TypeError` at the first step | print the label and the count together | high (not executed) | DynamicState.RunAsWritten, DynamicState.VerboseRunStops | DynamicState.Run |
| paper_routing/satellite_networks_state/stagen_GEO/dynamic_state/generate_dynamic_state.py:214 | `import algorithm_free_one_only_over_isls_ills` binds the module, and line 214 calls that module (with 12 arguments, the function taking 13: `GEOsatellites` is missing) | any quiet run of ten or more steps with the supported algorithm: Python raises `TypeError: 'module' object is not callable` at the first step | call the module's function of the same name, passing `GEOsatellites` | high (not executed) | DynamicState.RunAsWritten, DynamicState.ModuleCallStops | DynamicState.Run |
| ns3-sat-sim/simulator/contrib/satellite-network/model/receive-datarate-device.cc:22 | bits are divided by the interval in nanoseconds before scaling by 10^9 | 12 500 bytes in 1 ms (100 Mbit/s) reads as 0 bit/s | scale first, then divide | high (not executed) | ReceiveRate.RateAsWritten, ReceiveRate.HundredMegabitsReadAsZero | ReceiveRate.RateScaledFirst, ReceiveRate.AsWrittenBelowScaledFirst |
| ns3-sat-sim/simulator/contrib/satellite-network/helper/arbiter-leo-geo-helper.cc:253 | the GEO node id is offset by the number of GEO relays instead of ground stations | 2 satellites, 3 stations, 1 relay: GEO 0 is bound as node 3, a ground station | offset by satellites plus ground stations | medium (not executed) | ForwardingState.OlderBindsToGroundStation | ForwardingState.CurrentBindsToGeo |
| ns3-sat-sim/simulator/contrib/satellite-network/helper/arbiter-leo-geo-helper.cc:203 | the remote interface is stored as the next node id plus one | line hop (7, 0, 2) is stored as (7, 1, 8) | store the next interface plus one, (7, 1, 3) | high (not executed) | ForwardingState.OlderStoresNodeAsInterface | ForwardingState.StoredTripleRoundTrip |
| paper_routing/ns3_experiments/traffic_matrix/satviz/util.py:107-115 | the same-orbit link is stored under a key that the adjacent-orbit link then overwrites | 3 orbits of 3: the link 0–1 is missing, and only 9 of 18 links remain | keep both links per satellite | high (not executed) | SatvizLinks.GridLinksAsWritten, SatvizLinks.AsWrittenLinksLeaveTheOrbit, SatvizLinks.GridMissesSameOrbitLink | SatvizLinks.GridLinks, SatvizLinks.GridLinksJoinNeighbours |
