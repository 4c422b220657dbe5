/** The traffic-class-aware LEO arbiter.

    Packets carry a flow TOS tag that selects a traffic class (section 3.1 of
    RFC 791 values). When the first candidate toward the target is the target
    itself or a satellite that does not detour on the arriving interface, every
    class takes it. Otherwise class A keeps it anyway; class B takes the first
    later candidate that is calm and is not the satellite the packet came from
    (recorded in a `FromTag`, and a new one is attached); class C goes to the GEO
    relay; unclassified traffic falls back to the plain LEO arbiter. Untagged
    packets are allowed only when they are ICMP time-exceeded replies, which take
    the first candidate.

    `ForwardToGEO` and `AddFromTag` are not part of this model: the decision
    reports `ViaGeo` and `Tagged` for them.
 */
module ArbiterTrafficLeo {
  import opened Outcomes
  import opened MachineInts
  import opened Topology
  import opened CandidateScan
  import opened TrafficClasses
  import FromTags
  import ArbiterLeo
  import ArbiterGeo

  /** What the arbiter reads off a packet: its flow TOS tag, if any, the TTL of
      the IP header embedded in an ICMP time-exceeded body (read only when the
      tag is missing), and its `FromTag`, if any. */
  datatype PacketView = PacketView(flowTos: Option<byte>, embeddedTtl: byte, fromTag: Option<FromTags.FromTag>)

  datatype Route =
    | Direct(hop: Hop)     // the candidate is returned as is
    | Tagged(hop: Hop)     // class B: a `FromTag` is attached, then the hop is used
    | ViaGeo               // class C: handed to `ForwardToGEO`

  /** The sender a class B packet records: the tag's value as an `int32`, -1 when
      the packet has none (the default tag). */
  function Sender(p: PacketView): (from: int32)
    ensures p.fromTag.None? ==> from == -1
  {
    ToInt32(p.fromTag.GetOr(FromTags.DEFAULT_FROM_TAG).from)
  }

  /** The hop a default-constructed tuple holds. */
  const ZERO_HOP: Hop := Hop(0, 0, 0)

  /** First index at or after `from` whose node is not `sender`. */
  function FirstNotFrom(cands: seq<Hop>, sender: int, from: nat): (r: Option<nat>)
    requires from <= |cands|
    decreases |cands| - from
    ensures r.Some? ==> from <= r.value < |cands| && cands[r.value].node != sender
                        && forall j :: from <= j < r.value ==> cands[j].node == sender
    ensures r.None? ==> forall j :: from <= j < |cands| ==> cands[j].node == sender
  {
    if from == |cands| then None
    else if cands[from].node != sender then Some(from)
    else FirstNotFrom(cands, sender, from + 1)
  }

  /** First index at or after `from` whose satellite is calm on the arriving
      interface and is not `sender`; every candidate reached is looked up first,
      so a missing arbiter aborts. */
  function FirstCalmNotFrom(cands: seq<Hop>, ifaceFlags: seq<set<int>>, sender: int, from: nat): (r: Outcome<Option<nat>>)
    requires from <= |cands|
    decreases |cands| - from
    ensures r.Ok? ==> forall j :: from <= j < |cands| && (r.value.None? || j <= r.value.value) ==> HasArbiter(ifaceFlags, cands[j].node)
    ensures r.Ok? && r.value.Some? ==>
              from <= r.value.value < |cands|
              && !IfaceDetouring(ifaceFlags, cands[r.value.value]) && cands[r.value.value].node != sender
              && forall j :: from <= j < r.value.value ==> IfaceDetouring(ifaceFlags, cands[j]) || cands[j].node == sender
    ensures r.Ok? && r.value.None? ==>
              forall j :: from <= j < |cands| ==> IfaceDetouring(ifaceFlags, cands[j]) || cands[j].node == sender
    ensures r.Abort? <==> exists k :: from <= k < |cands| && !HasArbiter(ifaceFlags, cands[k].node)
                                      && forall j :: from <= j < k ==> HasArbiter(ifaceFlags, cands[j].node)
                                                                        && (IfaceDetouring(ifaceFlags, cands[j]) || cands[j].node == sender)
  {
    if from == |cands| then Ok(None)
    else if !HasArbiter(ifaceFlags, cands[from].node) then Abort(NULL_ARBITER)
    else if !IfaceDetouring(ifaceFlags, cands[from]) && cands[from].node != sender then Ok(Some(from))
    else FirstCalmNotFrom(cands, ifaceFlags, sender, from + 1)
  }

  /** Candidate `k`, after the first, is the first one that is calm and is not
      the sender. */
  predicate FirstCalmOtherAt(cands: seq<Hop>, ifaceFlags: seq<set<int>>, sender: int, k: int) {
    1 <= k < |cands| && HasArbiter(ifaceFlags, cands[k].node)
    && !IfaceDetouring(ifaceFlags, cands[k]) && cands[k].node != sender
    && forall j :: 1 <= j < k ==> HasArbiter(ifaceFlags, cands[j].node)
                                  && (IfaceDetouring(ifaceFlags, cands[j]) || cands[j].node == sender)
  }

  /** Candidate `k`, after the first, is the first one that is not the sender. */
  predicate FirstOtherAt(cands: seq<Hop>, sender: int, k: int) {
    1 <= k < |cands| && cands[k].node != sender
    && forall j :: 1 <= j < k ==> cands[j].node == sender
  }

  /** Class B when the first candidate detours: the first calm candidate other
      than the sender after the first if there is one, else the first later
      candidate other than the sender, else the default tuple. */
  function DetourClassB(cands: seq<Hop>, ifaceFlags: seq<set<int>>, sender: int): (r: Outcome<Hop>)
    requires |cands| >= 1
    ensures r.Ok? ==> r.value == ZERO_HOP || exists k :: 1 <= k < |cands| && r.value == cands[k]
    ensures r.Ok? && (exists k :: 1 <= k < |cands| && cands[k].node != sender) ==> r.value.node != sender
    ensures r.Ok? && (exists k :: 1 <= k < |cands| && cands[k].node != sender && !IfaceDetouring(ifaceFlags, cands[k])) ==>
              HasArbiter(ifaceFlags, r.value.node) && !IfaceDetouring(ifaceFlags, r.value)
    ensures r.Ok? ==>
              (exists k :: FirstCalmOtherAt(cands, ifaceFlags, sender, k) && r.value == cands[k])
              || ((forall j :: 1 <= j < |cands| ==> HasArbiter(ifaceFlags, cands[j].node)
                                                     && (IfaceDetouring(ifaceFlags, cands[j]) || cands[j].node == sender))
                  && ((exists k :: FirstOtherAt(cands, sender, k) && r.value == cands[k])
                      || ((forall j :: 1 <= j < |cands| ==> cands[j].node == sender) && r.value == ZERO_HOP)))
    ensures r.Abort? <==> exists k :: 1 <= k < |cands| && !HasArbiter(ifaceFlags, cands[k].node)
                                      && forall j :: 1 <= j < k ==> HasArbiter(ifaceFlags, cands[j].node)
                                                                     && (IfaceDetouring(ifaceFlags, cands[j]) || cands[j].node == sender)
  {
    var calm :- FirstCalmNotFrom(cands, ifaceFlags, sender, 1);
    if calm.Some? then
      assert FirstCalmOtherAt(cands, ifaceFlags, sender, calm.value);
      Ok(cands[calm.value])
    else
      var other := FirstNotFrom(cands, sender, 1);
      if other.Some? then
        assert FirstOtherAt(cands, sender, other.value);
        Ok(cands[other.value])
      else Ok(ZERO_HOP)
  }

  /** `TopologySatelliteNetworkDecide` of the traffic-class arbiter. */
  function Decide(cfg: ArbiterLeo.LeoConfig, a: ArbiterLeo.LeoArbiter, target: int, p: PacketView, key: ArbiterGeo.PacketKey,
                  leoDetour: seq<bool>, ifaceFlags: seq<set<int>>, geos: seq<ArbiterGeo.GeoArbiter>)
    : (r: Outcome<(Route, seq<ArbiterGeo.GeoArbiter>)>)
    ensures !cfg.counts.IsSat(a.id) || target == a.id ==> r.Abort?
    ensures cfg.counts.IsSat(a.id) && target != a.id && p.flowTos.None? ==> (r.Ok? <==> p.embeddedTtl == 0 && 0 <= target < |a.table| && |a.table[target]| > 0)
    ensures p.flowTos.None? && r.Ok? ==> r.value == (Direct(a.table[target][0]), geos)
    ensures p.flowTos.Some? && Tos2TrafficClass(p.flowTos.value).Abort? ==> r.Abort?
    ensures p.flowTos.Some? && Tos2TrafficClass(p.flowTos.value) == Ok(ClassDefault) && cfg.counts.IsSat(a.id) && target != a.id ==>
              (r.Ok? <==> ArbiterLeo.Decide(cfg, a, target, key, leoDetour, geos).Ok?)
              && (r.Ok? ==> r.value == (Direct(ArbiterLeo.Decide(cfg, a, target, key, leoDetour, geos).value.0),
                                        ArbiterLeo.Decide(cfg, a, target, key, leoDetour, geos).value.1))
    ensures r.Ok? && r.value.0 != ViaGeo && (p.flowTos.None? || Tos2TrafficClass(p.flowTos.value) != Ok(ClassDefault)) ==>
              r.value.1 == geos
    ensures r.Ok? && r.value.0 == ViaGeo ==> p.flowTos.Some? && Tos2TrafficClass(p.flowTos.value) == Ok(ClassC)
    ensures r.Ok? && r.value.0.Tagged? ==>
              p.flowTos.Some? && Tos2TrafficClass(p.flowTos.value) == Ok(ClassB) && 0 <= target < |a.table|
    ensures r.Ok? && r.value.0.Tagged? && (exists k :: 1 <= k < |a.table[target]| && a.table[target][k].node != Sender(p)) ==>
              r.value.0.hop.node != Sender(p)
    ensures FirstDetours(cfg, a, target, p, ifaceFlags) && Tos2TrafficClass(p.flowTos.value) == Ok(ClassA) ==>
              r == Ok((Direct(a.table[target][0]), geos))
    ensures FirstDetours(cfg, a, target, p, ifaceFlags) && Tos2TrafficClass(p.flowTos.value) == Ok(ClassB) ==>
              (r.Ok? <==> DetourClassB(a.table[target], ifaceFlags, Sender(p)).Ok?)
              && (r.Ok? ==> r.value == (Tagged(DetourClassB(a.table[target], ifaceFlags, Sender(p)).value), geos))
    ensures FirstDetours(cfg, a, target, p, ifaceFlags) && Tos2TrafficClass(p.flowTos.value) == Ok(ClassC) ==>
              r == Ok((ViaGeo, geos))
  {
    if !cfg.counts.IsSat(a.id) then Abort("arbiter_leo in a node that is not a satellite")
    else if target == a.id then Abort("target_id == current_id")
    else if p.flowTos.None? then
      if p.embeddedTtl == 0 then
        var cands :- ListToward(a.table, target);
        var first :- Head(cands);
        Ok((Direct(first), geos))
      else Abort("a packet has no FlowTosTag")
    else
      var cls :- Tos2TrafficClass(p.flowTos.value);
      if cls == ClassDefault then
        var d :- ArbiterLeo.Decide(cfg, a, target, key, leoDetour, geos);
        Ok((Direct(d.0), d.1))
      else
        var cands :- ListToward(a.table, target);
        var first :- Head(cands);
        if first.node != target && !HasArbiter(ifaceFlags, first.node) then Abort(NULL_ARBITER)
        else if first.node == target || !IfaceDetouring(ifaceFlags, first) then Ok((Direct(first), geos))
        else if cls == ClassA then Ok((Direct(first), geos))
        else if cls == ClassB then
          var hop :- DetourClassB(cands, ifaceFlags, Sender(p));
          Ok((Tagged(hop), geos))
        else Ok((ViaGeo, geos))
  }

  /** A tagged packet at a satellite whose first candidate toward a valid target
      is another satellite detouring on the arriving interface. */
  predicate FirstDetours(cfg: ArbiterLeo.LeoConfig, a: ArbiterLeo.LeoArbiter, target: int, p: PacketView,
                         ifaceFlags: seq<set<int>>) {
    cfg.counts.IsSat(a.id) && target != a.id && p.flowTos.Some?
    && 0 <= target < |a.table| && |a.table[target]| > 0
    && a.table[target][0].node != target && IfaceDetouring(ifaceFlags, a.table[target][0])
  }

  /** A class B packet whose first candidate detours goes, tagged, to the first
      later candidate that is calm and is not its sender. */
  lemma ClassBTakesFirstCalmOther(cfg: ArbiterLeo.LeoConfig, a: ArbiterLeo.LeoArbiter, target: int, p: PacketView,
                                  key: ArbiterGeo.PacketKey, leoDetour: seq<bool>, ifaceFlags: seq<set<int>>,
                                  geos: seq<ArbiterGeo.GeoArbiter>, k: nat)
    requires FirstDetours(cfg, a, target, p, ifaceFlags) && p.flowTos == Some(TOS_HIGH_THROUGHPUT)
    requires FirstCalmOtherAt(a.table[target], ifaceFlags, Sender(p), k)
    ensures Decide(cfg, a, target, p, key, leoDetour, ifaceFlags, geos) == Ok((Tagged(a.table[target][k]), geos))
  {
  }

  /** Whatever its class, a packet whose first candidate is the target or a calm
      satellite takes that candidate. */
  lemma CalmFirstForEveryClass(cfg: ArbiterLeo.LeoConfig, a: ArbiterLeo.LeoArbiter, target: int, p: PacketView, key: ArbiterGeo.PacketKey,
                               leoDetour: seq<bool>, ifaceFlags: seq<set<int>>, geos: seq<ArbiterGeo.GeoArbiter>)
    requires cfg.counts.IsSat(a.id) && target != a.id && 0 <= target < |a.table| && |a.table[target]| > 0
    requires p.flowTos.Some? && Tos2TrafficClass(p.flowTos.value).Ok? && Tos2TrafficClass(p.flowTos.value) != Ok(ClassDefault)
    requires var h := a.table[target][0];
             h.node == target || (HasArbiter(ifaceFlags, h.node) && !IfaceDetouring(ifaceFlags, h))
    ensures Decide(cfg, a, target, p, key, leoDetour, ifaceFlags, geos) == Ok((Direct(a.table[target][0]), geos))
  {
  }

  /** Class A never detours: it takes the first candidate whenever that
      candidate's arbiter exists. */
  lemma ClassANeverDetours(cfg: ArbiterLeo.LeoConfig, a: ArbiterLeo.LeoArbiter, target: int, p: PacketView, key: ArbiterGeo.PacketKey,
                           leoDetour: seq<bool>, ifaceFlags: seq<set<int>>, geos: seq<ArbiterGeo.GeoArbiter>)
    requires cfg.counts.IsSat(a.id) && target != a.id && 0 <= target < |a.table| && |a.table[target]| > 0
    requires p.flowTos == Some(TOS_LOW_DELAY)
    requires var h := a.table[target][0]; h.node == target || HasArbiter(ifaceFlags, h.node)
    ensures Decide(cfg, a, target, p, key, leoDetour, ifaceFlags, geos) == Ok((Direct(a.table[target][0]), geos))
  {
  }

  /** A class B packet without a `FromTag` is treated as coming from node -1, so
      no candidate is excluded. */
  lemma UntaggedSenderIsMinusOne(p: PacketView)
    requires p.fromTag.None?
    ensures Sender(p) == -1
  {
  }
}
