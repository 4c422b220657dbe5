/** The ground-station arbiter.

    A ground station sees up to three satellites; its candidate list toward a
    target holds them nearest first, padded with node -1 when fewer are visible.
    It takes the first visible satellite that does not detour on the interface
    the packet would arrive on, and the nearest satellite when all of them detour.
 */
module ArbiterGs {
  import opened Outcomes
  import opened Topology
  import opened CandidateScan

  datatype GsArbiter = GsArbiter(id: int, table: Table)

  const GS_INTERFACES: nat := 2

  /** The padding node of a short candidate list. */
  const NO_SATELLITE: int := -1

  /** The end of the visible satellites from `from` on: the first padding entry,
      or the end of the list. */
  function VisibleEnd(cands: seq<Hop>, from: nat): (e: nat)
    requires from <= |cands|
    decreases |cands| - from
    ensures from <= e <= |cands|
    ensures e < |cands| ==> cands[e].node == NO_SATELLITE
    ensures forall j :: from <= j < e ==> cands[j].node != NO_SATELLITE
  {
    if from == |cands| || cands[from].node == NO_SATELLITE then from else VisibleEnd(cands, from + 1)
  }

  /** Index of the first candidate at or after `from`, before any padding, whose
      satellite does not detour on the candidate's remote interface. */
  function FirstCalm(cands: seq<Hop>, ifaceFlags: seq<set<int>>, from: nat): (r: Outcome<Option<nat>>)
    requires from <= |cands|
    decreases |cands| - from
    ensures r.Ok? && r.value.Some? ==>
              from <= r.value.value < |cands|
              && cands[r.value.value].node != NO_SATELLITE
              && HasArbiter(ifaceFlags, cands[r.value.value].node)
              && !IfaceDetouring(ifaceFlags, cands[r.value.value])
              && forall j :: from <= j < r.value.value ==>
                   cands[j].node != NO_SATELLITE && HasArbiter(ifaceFlags, cands[j].node) && IfaceDetouring(ifaceFlags, cands[j])
    ensures r.Ok? && r.value.None? ==>
              forall j :: from <= j < VisibleEnd(cands, from) ==> IfaceDetouring(ifaceFlags, cands[j])
    ensures r.Abort? ==> r.reason == NULL_ARBITER
                         && exists k :: from <= k < |cands| && cands[k].node != NO_SATELLITE && !HasArbiter(ifaceFlags, cands[k].node)
    ensures (forall j :: from <= j < VisibleEnd(cands, from) ==> HasArbiter(ifaceFlags, cands[j].node)) ==> r.Ok?
  {
    if from == |cands| || cands[from].node == NO_SATELLITE then Ok(None)
    else if !HasArbiter(ifaceFlags, cands[from].node) then Abort(NULL_ARBITER)
    else if !IfaceDetouring(ifaceFlags, cands[from]) then Ok(Some(from))
    else FirstCalm(cands, ifaceFlags, from + 1)
  }

  /** Candidate `k` is the first visible satellite that is calm on the
      interface the packet would arrive on. */
  predicate FirstCalmAt(cands: seq<Hop>, ifaceFlags: seq<set<int>>, k: int) {
    0 <= k < |cands| && cands[k].node != NO_SATELLITE && HasArbiter(ifaceFlags, cands[k].node)
    && !IfaceDetouring(ifaceFlags, cands[k])
    && forall j :: 0 <= j < k ==> cands[j].node != NO_SATELLITE && IfaceDetouring(ifaceFlags, cands[j])
  }

  /** Every visible satellite detours on its arriving interface. */
  predicate AllVisibleDetour(cands: seq<Hop>, ifaceFlags: seq<set<int>>) {
    forall j :: 0 <= j < VisibleEnd(cands, 0) ==> IfaceDetouring(ifaceFlags, cands[j])
  }

  /** `TopologySatelliteNetworkDecide` of a ground station. */
  function Decide(c: Counts, g: GsArbiter, target: int, ifaceFlags: seq<set<int>>): (r: Outcome<Hop>)
    ensures !c.IsGs(g.id) || target == g.id || !(0 <= target < |g.table|) ==> r.Abort?
    ensures r.Ok? ==> exists k :: 0 <= k < |g.table[target]| && r.value == g.table[target][k]
    ensures r.Ok? && r.value != g.table[target][0] ==>
              r.value.node != NO_SATELLITE && HasArbiter(ifaceFlags, r.value.node) && !IfaceDetouring(ifaceFlags, r.value)
    ensures r.Ok? ==> (exists k :: FirstCalmAt(g.table[target], ifaceFlags, k) && r.value == g.table[target][k])
                      || (AllVisibleDetour(g.table[target], ifaceFlags) && r.value == g.table[target][0])
    ensures c.IsGs(g.id) && target != g.id && 0 <= target < |g.table| && |g.table[target]| > 0
            && (forall j :: 0 <= j < VisibleEnd(g.table[target], 0) ==> HasArbiter(ifaceFlags, g.table[target][j].node))
            ==> r.Ok?
  {
    if !c.IsGs(g.id) then Abort("arbiter_gs in a node that is not a ground station")
    else if target == g.id then Abort("target_id == current_id")
    else
      var cands :- ListToward(g.table, target);
      var found :- FirstCalm(cands, ifaceFlags, 0);
      if found.Some? then
        assert FirstCalmAt(cands, ifaceFlags, found.value);
        Ok(cands[found.value])
      else Head(cands)
  }

  /** The first visible calm satellite is taken, whatever follows it. */
  lemma {:induction false} TakesFirstCalm(c: Counts, g: GsArbiter, target: int, ifaceFlags: seq<set<int>>, k: nat)
    requires c.IsGs(g.id) && target != g.id && 0 <= target < |g.table|
    requires FirstCalmAt(g.table[target], ifaceFlags, k)
    ensures Decide(c, g, target, ifaceFlags) == Ok(g.table[target][k])
  {
    FirstCalmFinds(g.table[target], ifaceFlags, 0, k);
  }

  lemma {:induction false} FirstCalmFinds(cands: seq<Hop>, ifaceFlags: seq<set<int>>, from: nat, k: nat)
    requires from <= k && FirstCalmAt(cands, ifaceFlags, k)
    ensures FirstCalm(cands, ifaceFlags, from) == Ok(Some(k))
    decreases k - from
  {
    if from < k {
      FirstCalmFinds(cands, ifaceFlags, from + 1, k);
    }
  }

  /** When every visible satellite detours the ground station still sends to the
      nearest one; when the nearest is calm it is taken. */
  lemma {:induction false} NearestWhenAllDetour(c: Counts, g: GsArbiter, target: int, ifaceFlags: seq<set<int>>)
    requires c.IsGs(g.id) && target != g.id && 0 <= target < |g.table| && |g.table[target]| > 0
    requires forall j :: 0 <= j < |g.table[target]| ==>
               g.table[target][j].node != NO_SATELLITE && HasArbiter(ifaceFlags, g.table[target][j].node)
               && IfaceDetouring(ifaceFlags, g.table[target][j])
    ensures Decide(c, g, target, ifaceFlags) == Ok(g.table[target][0])
  {
    AllDetouringNone(g.table[target], ifaceFlags, 0);
  }

  lemma {:induction false} AllDetouringNone(cands: seq<Hop>, ifaceFlags: seq<set<int>>, from: nat)
    requires from <= |cands|
    requires forall j :: from <= j < |cands| ==>
               cands[j].node != NO_SATELLITE && HasArbiter(ifaceFlags, cands[j].node) && IfaceDetouring(ifaceFlags, cands[j])
    ensures FirstCalm(cands, ifaceFlags, from) == Ok(None)
    decreases |cands| - from
  {
    if from < |cands| {
      AllDetouringNone(cands, ifaceFlags, from + 1);
    }
  }

  /** `UpdateReceiveDatarate` of a ground station: two interfaces, the second a
      GSL; the next refresh is planned one interval later. */
  function UpdateReceiveDatarate(devs: seq<Device>, interval: int, now: int): (r: Outcome<(seq<Device>, int)>)
    requires interval > 0
    ensures r.Ok? <==> |devs| == GS_INTERFACES && devs[1].Gsl?
    ensures r.Ok? ==> |r.value.0| == GS_INTERFACES && r.value.0[0] == devs[0]
                      && r.value.0[1] == RefreshDevice(devs[1], interval) && r.value.0[1].rx.receiveBytes == 0
    ensures r.Ok? ==> r.value.1 == now + interval
  {
    var devs' :- RefreshNode(devs, {GS_INTERFACES}, interval, false);
    Ok((devs', now + interval))
  }

  /** The constructor: the static interval must have been initialised, then the
      first refresh runs. */
  function NewGsArbiter(id: int, table: Table, interval: int, devs: seq<Device>, now: int): (r: Outcome<(GsArbiter, seq<Device>, int)>)
    requires interval >= 0
    ensures interval == 0 ==> r.Abort?
    ensures interval > 0 ==> (r.Ok? <==> |devs| == GS_INTERFACES && devs[1].Gsl?)
    ensures r.Ok? ==> r.value.0 == GsArbiter(id, table) && Ok((r.value.1, r.value.2)) == UpdateReceiveDatarate(devs, interval, now)
  {
    if interval == 0 then Abort("Initialize must before")
    else
      var u :- UpdateReceiveDatarate(devs, interval, now);
      Ok((GsArbiter(id, table), u.0, u.1))
  }
}
