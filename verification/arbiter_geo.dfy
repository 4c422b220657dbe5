/** The GEO relay arbiter.

    A LEO satellite that finds all its candidates detouring hands the packet up to
    its GEO relay and first records, in that relay's provenance map, which
    satellite the packet came from (keyed by the packet's address, `PacketKey`).
    The relay later looks the sender up and walks the sender's first-choice chain
    toward the target: it skips satellites that are detouring and hands the packet
    down to the first one that is not, or, when the chain reaches the target, to
    the last detouring satellite before it.

    The walk reads the arbiters of the older combined helper, one per satellite
    and ground station (`Relay`). It has no step bound in the source; the model
    keeps the set of detouring satellites already passed, and reaching one of them
    again (the source would loop forever) is reported as `Abort(WALK_NEVER_ENDS)`.
 */
module ArbiterGeo {
  import opened Outcomes
  import opened MachineInts
  import opened Topology

  /** The packet's address, which the source uses as its identity. */
  type PacketKey = uint64

  datatype GeoArbiter = GeoArbiter(id: int, provenance: map<PacketKey, int>)

  /** What the walk reads of a satellite's or ground station's arbiter. */
  datatype Relay = Relay(detour: bool, nextGeo: int, table: Table)

  const WALK_NEVER_ENDS: string := "relay walk revisits a detouring satellite and never ends"

  /** `PushGEONextHop`: record the sender of a packet; a key already present
      aborts. */
  function Push(g: GeoArbiter, key: PacketKey, from: int): (r: Outcome<GeoArbiter>)
    ensures r.Ok? <==> key !in g.provenance
    ensures r.Ok? ==> r.value.id == g.id && key in r.value.provenance && r.value.provenance[key] == from
    ensures r.Ok? ==> forall k :: k in g.provenance ==> k in r.value.provenance && r.value.provenance[k] == g.provenance[k]
    ensures r.Ok? ==> r.value.provenance.Keys == g.provenance.Keys + {key}
  {
    if key in g.provenance then Abort("find 2 packet have same ptr address")
    else Ok(g.(provenance := g.provenance[key := from]))
  }

  predicate InRange(views: seq<Relay>, n: int) {
    0 <= n < |views|
  }

  /** The node `n`'s first candidate toward `target` is `next`. */
  predicate FirstChoiceIs(views: seq<Relay>, n: int, target: int, next: int) {
    InRange(views, n) && 0 <= target < |views[n].table| && |views[n].table[target]| > 0
    && views[n].table[target][0].node == next
  }

  /** `views[n]`'s first candidate toward `target`, with the source's
      out-of-range indexing reported as an abort. */
  function FirstChoice(views: seq<Relay>, n: int, target: int): (r: Outcome<int>)
    ensures r.Ok? <==> InRange(views, n) && 0 <= target < |views[n].table| && |views[n].table[target]| > 0
    ensures r.Ok? ==> FirstChoiceIs(views, n, target, r.value)
  {
    if !InRange(views, n) then Abort(OUT_OF_RANGE)
    else
      var cands :- ListToward(views[n].table, target);
      var h :- Head(cands);
      Ok(h.node)
  }

  /** Where a walk may legitimately stop: a satellite that is not detouring, or a
      detouring one, bound to this relay, whose first choice is the target. */
  predicate Settled(views: seq<Relay>, target: int, selfGeo: int, n: int) {
    InRange(views, n) && n != target
    && (!views[n].detour
        || (views[n].nextGeo == selfGeo && FirstChoiceIs(views, n, target, target)))
  }

  /** The ids `0 .. n-1`, the bound on the satellites a walk can pass. */
  function AllIds(n: nat): (ids: set<nat>)
    ensures forall i: nat :: i in ids <==> i < n
  {
    if n == 0 then {} else AllIds(n - 1) + {n - 1}
  }

  /** The loop of `FindNextHopForGEO`, at node `ptr` after passing `last`. */
  function WalkFrom(views: seq<Relay>, target: int, selfGeo: int, ptr: int, last: int, passed: set<nat>): (r: Outcome<Hop>)
    requires passed <= AllIds(|views|)
    decreases AllIds(|views|) - passed
    ensures r.Ok? ==> r.value.localIf == GEO_ILL_IF && r.value.remoteIf == LEO_ILL_IF
    ensures r.Ok? && ptr == target ==> r.value.node == last
    ensures r.Ok? && ptr != target ==> Settled(views, target, selfGeo, r.value.node)
    ensures ptr != target && InRange(views, ptr) && !views[ptr].detour ==> r == Ok(Hop(ptr, GEO_ILL_IF, LEO_ILL_IF))
    ensures ptr != target && InRange(views, ptr) && views[ptr].detour && views[ptr].nextGeo != selfGeo ==> r.Abort?
  {
    if ptr == target then Ok(Hop(last, GEO_ILL_IF, LEO_ILL_IF))
    else if !InRange(views, ptr) then Abort(OUT_OF_RANGE)
    else if !views[ptr].detour then Ok(Hop(ptr, GEO_ILL_IF, LEO_ILL_IF))
    else if views[ptr].nextGeo != selfGeo then Abort("next hop of GEOsatellite is out of ill")
    else if ptr in passed then Abort(WALK_NEVER_ENDS)
    else
      var next :- FirstChoice(views, ptr, target);
      WalkFrom(views, target, selfGeo, next, ptr, passed + {ptr})
  }

  /** `FindNextHopForGEO`: start at the sender's first choice toward the target,
      which must not be the target itself. */
  function FindNextHop(views: seq<Relay>, from: int, target: int, selfGeo: int): (r: Outcome<Hop>)
    ensures r.Ok? ==> r.value.localIf == GEO_ILL_IF && r.value.remoteIf == LEO_ILL_IF
    ensures r.Ok? ==> Settled(views, target, selfGeo, r.value.node)
    ensures FirstChoiceIs(views, from, target, target) ==> r.Abort?
    ensures forall p :: FirstChoiceIs(views, from, target, p) && p != target && InRange(views, p) && !views[p].detour
                        ==> r == Ok(Hop(p, GEO_ILL_IF, LEO_ILL_IF))
  {
    var start :- FirstChoice(views, from, target);
    if start == target then Abort("LEO forward packet to GEO instead of ground station")
    else WalkFrom(views, target, selfGeo, start, start, {})
  }

  /** `TopologySatelliteNetworkDecide` of a relay: the sender must have been
      recorded; the recorded entry is left in place. */
  function Decide(g: GeoArbiter, key: PacketKey, target: int, views: seq<Relay>): (r: Outcome<Hop>)
    ensures key !in g.provenance ==> r.Abort?
    ensures key in g.provenance ==> r == FindNextHop(views, g.provenance[key], target, g.id)
  {
    if key !in g.provenance then Abort("the packet have never been push to map")
    else FindNextHop(views, g.provenance[key], target, g.id)
  }

  /** A packet pushed by a satellite is routed from that satellite, and pushing the
      same packet a second time aborts. */
  lemma PushThenDecide(g: GeoArbiter, key: PacketKey, from: int, target: int, views: seq<Relay>)
    requires key !in g.provenance
    ensures Decide(Push(g, key, from).value, key, target, views) == FindNextHop(views, from, target, g.id)
    ensures Push(Push(g, key, from).value, key, from).Abort?
  {
  }

  /** A two-satellite cycle of detouring first choices: the source loops forever,
      the model reports it. */
  lemma CycleNeverEnds()
    ensures var t := 2;
            var a := Relay(true, 9, [[], [], [Hop(1, 1, 1)]]);
            var b := Relay(true, 9, [[], [], [Hop(0, 1, 1)]]);
            FindNextHop([a, b, Relay(false, -2, [])], 0, t, 9) == Abort(WALK_NEVER_ENDS)
  {
    var t := 2;
    var a := Relay(true, 9, [[], [], [Hop(1, 1, 1)]]);
    var b := Relay(true, 9, [[], [], [Hop(0, 1, 1)]]);
    var views := [a, b, Relay(false, -2, [])];
    assert FirstChoice(views, 0, t) == Ok(1);
    assert FirstChoice(views, 1, t) == Ok(0);
    assert WalkFrom(views, t, 9, 1, 0, {1, 0}) == Abort(WALK_NEVER_ENDS);
    assert {1} + {0} == {1, 0};
    assert WalkFrom(views, t, 9, 0, 1, {1}) == Abort(WALK_NEVER_ENDS);
    assert {} + {1} == {1};
    assert WalkFrom(views, t, 9, 1, 1, {}) == Abort(WALK_NEVER_ENDS);
  }
}
