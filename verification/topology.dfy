/** Shared vocabulary of the satellite router: node ids, next-hop triples,
    forwarding tables, network devices, positions and rational thresholds.

    Node ids are dense: satellites (LEO) are `[0, S)`, ground stations
    `[S, S+G)` and GEO relays `[S+G, S+G+numGeo)`. On a LEO satellite interface 0
    is the loopback, 1..4 are inter-satellite links (ISL), 5 the ground-station
    link (GSL) and 6 the inter-layer link (ILL) to a GEO relay, which is built
    from the same device class as a GSL. A ground station has interfaces 0
    (loopback) and 1 (GSL); a GEO relay has 0 (loopback) and 1 (ILL).
 */
module Topology {
  import opened Outcomes
  import opened ReceiveRate

  datatype Counts = Counts(sats: nat, gss: nat, geos: nat) {
    predicate IsSat(id: int) { 0 <= id < sats }
    predicate IsGs(id: int) { sats <= id < sats + gss }
    predicate IsGeo(id: int) { sats + gss <= id < sats + gss + geos }
    /** Satellites and ground stations: the nodes that have forwarding tables. */
    function LeoGs(): nat { sats + gss }
  }

  /** One forwarding candidate `(next node, local interface, remote interface)`. */
  datatype Hop = Hop(node: int, localIf: int, remoteIf: int)

  /** Per node: for every target id, its candidate list (three entries). */
  type Table = seq<seq<Hop>>

  const CANDIDATES: nat := 3

  /** The placeholder every entry holds before the first snapshot is loaded. */
  const UNSET_HOP: Hop := Hop(-2, -2, -2)

  /** Interfaces a LEO satellite and a GEO relay use for the inter-layer link. */
  const LEO_ILL_IF: int := 6
  const GEO_ILL_IF: int := 1

  /** The candidate list toward `target`; indexing out of range is undefined
      behaviour in the source. */
  function ListToward(t: Table, target: int): (r: Outcome<seq<Hop>>)
    ensures r.Ok? <==> 0 <= target < |t|
    ensures r.Ok? ==> r.value == t[target]
  {
    if 0 <= target < |t| then Ok(t[target]) else Abort(OUT_OF_RANGE)
  }

  /** The first candidate of a list (`[0]` of a vector). */
  function Head(cands: seq<Hop>): (r: Outcome<Hop>)
    ensures r.Ok? <==> |cands| > 0
    ensures r.Ok? ==> r.value == cands[0]
  {
    if |cands| > 0 then Ok(cands[0]) else Abort(OUT_OF_RANGE)
  }

  // ---------------------------------------------------------------------------
  // Devices

  /** A network device as the arbiters see it: GSL-class (also used for the
      ILL), ISL with the far end of its channel, or something else. */
  datatype Device =
    | Loopback
    | Gsl(rx: RateDevice)
    | Isl(rx: RateDevice, peerNode: int, peerIf: int)
    | Unidentified

  /** The same device with its receive counter turned into a rate. */
  function RefreshDevice(d: Device, interval: int): (r: Device)
    requires interval > 0
    requires d.Gsl? || d.Isl?
    ensures r.Gsl? == d.Gsl? && r.Isl? == d.Isl?
    ensures r.rx == RateDevice(0, RateAsWritten(d.rx.receiveBytes, interval).value)
    ensures d.Isl? ==> r.peerNode == d.peerNode && r.peerIf == d.peerIf
  {
    d.(rx := Update(d.rx, interval).value)
  }

  /** Refreshes interfaces `from..` of a node in order. Interfaces must be GSL
      devices, or also ISL devices when `islAllowed`; anything else aborts. */
  function RefreshFrom(devs: seq<Device>, from: nat, interval: int, islAllowed: bool): (r: Outcome<seq<Device>>)
    requires interval > 0
    requires from <= |devs|
    decreases |devs| - from
    ensures r.Ok? <==> forall i :: from <= i < |devs| ==> devs[i].Gsl? || (islAllowed && devs[i].Isl?)
    ensures r.Ok? ==> |r.value| == |devs| - from
    ensures r.Ok? ==> forall i :: from <= i < |devs| ==>
              r.value[i - from] == RefreshDevice(devs[i], interval)
  {
    if from == |devs| then Ok([])
    else if !(devs[from].Gsl? || (islAllowed && devs[from].Isl?)) then Abort("Unidentified NetDevice")
    else
      var d := RefreshDevice(devs[from], interval);
      var rest :- RefreshFrom(devs, from + 1, interval, islAllowed);
      Ok([d] + rest)
  }

  /** The receive-rate refresh of one node: the interface count must be one of
      `allowedCounts`, every interface after the loopback is refreshed, and every
      counter ends at zero. */
  function RefreshNode(devs: seq<Device>, allowedCounts: set<nat>, interval: int, islAllowed: bool): (r: Outcome<seq<Device>>)
    requires interval > 0
    ensures r.Ok? <==> |devs| in allowedCounts && |devs| > 0
                       && forall i :: 1 <= i < |devs| ==> devs[i].Gsl? || (islAllowed && devs[i].Isl?)
    ensures r.Ok? ==> |r.value| == |devs| && r.value[0] == devs[0]
    ensures r.Ok? ==> forall i :: 1 <= i < |devs| ==>
              r.value[i] == RefreshDevice(devs[i], interval) && r.value[i].rx.receiveBytes == 0
  {
    if |devs| !in allowedCounts || |devs| == 0 then Abort("unexpected number of interfaces")
    else
      var rest :- RefreshFrom(devs, 1, interval, islAllowed);
      Ok([devs[0]] + rest)
  }

  // ---------------------------------------------------------------------------
  // Geometry and thresholds

  /** Positions are integer coordinates (metres); distances are compared through
      their squares, so no square root is needed. */
  datatype Pos = Pos(x: int, y: int, z: int)

  function SqDist(a: Pos, b: Pos): nat {
    (a.x - b.x) * (a.x - b.x) + (a.y - b.y) * (a.y - b.y) + (a.z - b.z) * (a.z - b.z)
  }

  /** The strict test `distance < radius` of the source, squared. */
  predicate Inside(p: Pos, center: Pos, radius: nat) {
    SqDist(p, center) < radius * radius
  }

  lemma CenterInside(p: Pos, radius: nat)
    requires radius > 0
    ensures Inside(p, p, radius)
  {
  }

  /** A positive rational standing for one of the configured `double` factors. */
  datatype Ratio = Ratio(num: nat, den: nat)
  type PosRatio = r: Ratio | r.num > 0 && r.den > 0 witness Ratio(1, 1)

  /** `now < target * r`, exactly. */
  predicate Below(now: nat, target: nat, r: PosRatio) {
    now * r.den < target * r.num
  }
}
