/** The LEO satellite arbiter of the current helper revision.

    Deciding: take the first of the three candidates toward the target that is
    the target itself or a satellite not currently detouring; when all three
    detour, record the packet's sender at the satellite's GEO relay and send the
    packet up the inter-layer link.

    Updating (every receive-rate interval): the ISL receive rates are summed
    against the ISL capacity and a three-threshold hysteresis decides whether the
    satellite detours. A satellite that starts to detour while outside every jam
    area founds a new area centred at its current position. All LEO arbiters
    share one registry of areas; each area remembers when every satellite inside
    it entered (or last detoured there), and a satellite that has spent the jam
    update interval inside an area without detouring deletes the area.

    The configured `double` factors are exact positive rationals here, positions
    are integer coordinates, and the clock is a parameter `now` in nanoseconds.
 */
module ArbiterLeo {
  import opened Outcomes
  import opened MachineInts
  import opened ReceiveRate
  import opened Arithmetic
  import opened Topology
  import opened CandidateScan
  import ArbiterGeo

  /** The static configuration every LEO arbiter shares. */
  datatype LeoConfig = LeoConfig(
    counts: Counts,
    inJam: PosRatio,          // detour threshold inside a jam area
    nonJam: PosRatio,         // detour threshold outside every jam area
    jamToNormal: PosRatio,    // below this fraction the satellite stops detouring
    radius: Positive,         // jam area radius in metres
    jamUpdateInterval: nat,   // calm time inside an area before it is deleted
    rateInterval: nat,        // receive-rate refresh interval; 0 = never initialised
    islCapacity: nat)         // capacity of one ISL in bits per second

  type Positive = n: nat | n > 0 witness 1

  datatype LeoArbiter = LeoArbiter(id: int, nextGeo: int, table: Table, detour: bool)

  /** One jam area: its (fixed) centre and, per satellite id, the time it entered. */
  datatype TimedArea = TimedArea(center: Pos, entered: map<int, int>)

  const MAX_AREAS: nat := 30
  const LEO_INTERFACES: nat := 7

  // ---------------------------------------------------------------------------
  // Deciding

  /** `TopologySatelliteNetworkDecide`. `leoDetour[i]` is the detour flag of LEO
      arbiter `i`; `geos[i]` is GEO arbiter `i` (id `S + G + i`). Returns the
      chosen candidate and the GEO arbiters after the possible provenance push. */
  function Decide(cfg: LeoConfig, a: LeoArbiter, target: int, key: ArbiterGeo.PacketKey,
                  leoDetour: seq<bool>, geos: seq<ArbiterGeo.GeoArbiter>)
    : (r: Outcome<(Hop, seq<ArbiterGeo.GeoArbiter>)>)
    ensures !cfg.counts.IsSat(a.id) || target == a.id || !(0 <= target < |a.table|) ==> r.Abort?
    ensures r.Ok? && r.value.1 == geos ==>
              exists k :: 0 <= k < |a.table[target]| && r.value.0 == a.table[target][k]
                          && Usable(a.table[target][k], target, leoDetour)
                          && forall j :: 0 <= j < k ==> Detouring(a.table[target][j], target, leoDetour)
    ensures r.Ok? && r.value.1 != geos ==>
              (forall j :: 0 <= j < |a.table[target]| ==> Detouring(a.table[target][j], target, leoDetour))
              && r.value.0 == Hop(a.nextGeo, LEO_ILL_IF, GEO_ILL_IF)
              && 0 <= GeoSlot(cfg, a) < |geos| == |r.value.1|
              && r.value.1 == geos[GeoSlot(cfg, a) := r.value.1[GeoSlot(cfg, a)]]
              && ArbiterGeo.Push(geos[GeoSlot(cfg, a)], key, a.id) == Ok(r.value.1[GeoSlot(cfg, a)])
    ensures cfg.counts.IsSat(a.id) && target != a.id && 0 <= target < |a.table| ==>
              forall k :: FirstUsableAt(a.table[target], target, leoDetour, k) ==> r == Ok((a.table[target][k], geos))
    ensures cfg.counts.IsSat(a.id) && target != a.id && 0 <= target < |a.table|
            && (forall j :: 0 <= j < |a.table[target]| ==> Detouring(a.table[target][j], target, leoDetour)) ==>
              (r.Ok? <==> 0 <= GeoSlot(cfg, a) < |geos| && key !in geos[GeoSlot(cfg, a)].provenance)
  {
    if !cfg.counts.IsSat(a.id) then Abort("arbiter_leo in a node that is not a satellite")
    else if target == a.id then Abort("target_id == current_id")
    else
      var cands :- ListToward(a.table, target);
      var found :- FirstUsable(cands, target, leoDetour, 0);
      if found.Some? then
        assert FirstUsableAt(cands, target, leoDetour, found.value);
        Ok((cands[found.value], geos))
      else
        var gi := GeoSlot(cfg, a);
        if !(0 <= gi < |geos|) then Abort(NULL_ARBITER)
        else
          var g :- ArbiterGeo.Push(geos[gi], key, a.id);
          Ok((Hop(a.nextGeo, LEO_ILL_IF, GEO_ILL_IF), geos[gi := g]))
  }

  /** The index of the satellite's GEO relay among the GEO arbiters. */
  function GeoSlot(cfg: LeoConfig, a: LeoArbiter): int {
    a.nextGeo - cfg.counts.sats - cfg.counts.gss
  }

  /** With every neighbour calm, the first candidate is taken and nothing is pushed. */
  lemma CalmNeighboursTakeFirst(cfg: LeoConfig, a: LeoArbiter, target: int, key: ArbiterGeo.PacketKey,
                                leoDetour: seq<bool>, geos: seq<ArbiterGeo.GeoArbiter>)
    requires cfg.counts.IsSat(a.id) && target != a.id && 0 <= target < |a.table|
    requires |a.table[target]| > 0
    requires var h := a.table[target][0]; h.node == target || (HasArbiter(leoDetour, h.node) && !leoDetour[h.node])
    ensures Decide(cfg, a, target, key, leoDetour, geos) == Ok((a.table[target][0], geos))
  {
  }

  /** When the packet goes up to the relay, the relay routes it from this
      satellite. */
  lemma FallbackRecordsSender(cfg: LeoConfig, a: LeoArbiter, target: int, key: ArbiterGeo.PacketKey,
                              leoDetour: seq<bool>, geos: seq<ArbiterGeo.GeoArbiter>,
                              views: seq<ArbiterGeo.Relay>)
    requires var r := Decide(cfg, a, target, key, leoDetour, geos); r.Ok? && r.value.1 != geos
    ensures var r := Decide(cfg, a, target, key, leoDetour, geos);
            var g := geos[GeoSlot(cfg, a)];
            ArbiterGeo.Decide(r.value.1[GeoSlot(cfg, a)], key, target, views)
            == ArbiterGeo.FindNextHop(views, a.id, target, g.id)
  {
    var r := Decide(cfg, a, target, key, leoDetour, geos);
    ArbiterGeo.PushThenDecide(geos[GeoSlot(cfg, a)], key, a.id, target, views);
  }

  // ---------------------------------------------------------------------------
  // Jam areas

  /** `CheckIfInTraficJamArea`: is the position strictly inside some area? */
  function InJamArea(areas: seq<TimedArea>, pos: Pos, radius: nat): (b: bool)
    ensures b <==> exists i :: 0 <= i < |areas| && Inside(pos, areas[i].center, radius)
  {
    if |areas| == 0 then false
    else Inside(pos, areas[0].center, radius) || InJamArea(areas[1..], pos, radius)
  }

  /** The detour decision and whether a new area is founded. */
  datatype Verdict = Verdict(detour: bool, foundArea: bool)

  /** The hysteresis of `UpdateDetour`: load below `jamToNormal` clears the
      detour; otherwise a satellite outside every area detours (and founds an
      area) at `nonJam`, one inside an area detours at `inJam`, and in between the
      previous flag is kept. */
  function Classify(cfg: LeoConfig, nowBps: nat, targetBps: nat, inArea: bool, prev: bool): (v: Verdict)
    ensures Below(nowBps, targetBps, cfg.jamToNormal) ==> v == Verdict(false, false)
    ensures v.foundArea ==> v.detour && !inArea
    ensures !Below(nowBps, targetBps, cfg.jamToNormal) && prev ==> v.detour
    ensures !Below(nowBps, targetBps, cfg.jamToNormal) && !prev ==>
              (v.detour <==> (if inArea then !Below(nowBps, targetBps, cfg.inJam) else !Below(nowBps, targetBps, cfg.nonJam)))
  {
    if Below(nowBps, targetBps, cfg.jamToNormal) then Verdict(false, false)
    else if !inArea && !Below(nowBps, targetBps, cfg.nonJam) then Verdict(true, true)
    else if inArea && !Below(nowBps, targetBps, cfg.inJam) then Verdict(true, false)
    else Verdict(prev, false)
  }

  lemma BelowAntitone(now: nat, now': nat, target: nat, r: PosRatio)
    requires now <= now' && !Below(now, target, r)
    ensures !Below(now', target, r)
  {
    MulMonotone(now, now', r.den);
  }

  /** More load never turns a detour off: the decision is monotone in the
      measured rate. */
  lemma {:induction false} ClassifyMonotone(cfg: LeoConfig, nowBps: nat, nowBps': nat, targetBps: nat, inArea: bool, prev: bool)
    requires nowBps <= nowBps'
    requires Classify(cfg, nowBps, targetBps, inArea, prev).detour
    ensures Classify(cfg, nowBps', targetBps, inArea, prev).detour
  {
    BelowAntitone(nowBps, nowBps', targetBps, cfg.jamToNormal);
    if !prev {
      if inArea {
        BelowAntitone(nowBps, nowBps', targetBps, cfg.inJam);
      } else {
        BelowAntitone(nowBps, nowBps', targetBps, cfg.nonJam);
      }
    }
  }

  /** The sum of the ISL receive rates of interfaces `from..` and the number of
      ISLs among them; GSL-class devices (GSL and ILL) are skipped and any other
      device aborts. */
  function IslLoad(devs: seq<Device>, from: nat): (r: Outcome<(nat, nat)>)
    requires from <= |devs|
    decreases |devs| - from
    ensures r.Ok? <==> forall i :: from <= i < |devs| ==> devs[i].Gsl? || devs[i].Isl?
    ensures r.Ok? ==> r.value.1 <= |devs| - from
    ensures r.Ok? && r.value.1 == 0 ==> r.value.0 == 0
  {
    if from == |devs| then Ok((0, 0))
    else if devs[from].Gsl? then IslLoad(devs, from + 1)
    else if devs[from].Isl? then
      var rest :- IslLoad(devs, from + 1);
      Ok((rest.0 + devs[from].rx.rate, rest.1 + 1))
    else Abort("Unidentified NetDevice")
  }

  /** GSL and ILL traffic does not count toward congestion: changing the receive
      state of a GSL-class device leaves the load unchanged. */
  lemma {:induction false} GslTrafficIgnored(devs: seq<Device>, i: nat, rx: RateDevice, from: nat)
    requires from <= |devs| && i < |devs| && devs[i].Gsl?
    ensures IslLoad(devs[i := Gsl(rx)], from) == IslLoad(devs, from)
    decreases |devs| - from
  {
    if from < |devs| {
      GslTrafficIgnored(devs, i, rx, from + 1);
    }
  }

  /** The total receive rate as a `uint64` sum. */
  function Wrap64(x: nat): uint64 {
    x % 0x1_0000_0000_0000_0000
  }

  /** The entries of every satellite but `self`. */
  function Others(m: map<int, int>, self: int): map<int, int> {
    m - {self}
  }

  /** The area a satellite is in records it; the expiry rule of one area. */
  predicate Recorded(a: TimedArea, self: int) {
    self in a.entered
  }

  predicate Expires(a: TimedArea, self: int, inside: bool, detour: bool, now: int, jamInterval: nat) {
    inside && Recorded(a, self) && !detour && now - a.entered[self] >= jamInterval
  }

  /** One area after the satellite's visit, when it is not deleted. */
  function AgeOne(a: TimedArea, self: int, inside: bool, detour: bool, now: int): (a': TimedArea)
    ensures a'.center == a.center
    ensures Others(a'.entered, self) == Others(a.entered, self)
    ensures Recorded(a', self) <==> inside
    ensures inside && (detour || !Recorded(a, self)) ==> a'.entered[self] == now
    ensures inside && !detour && Recorded(a, self) ==> a' == a
  {
    if inside then
      if !Recorded(a, self) || detour then a.(entered := a.entered[self := now]) else a
    else a.(entered := a.entered - {self})
  }

  /** Number of areas the visit deletes. */
  function ExpiredCount(areas: seq<TimedArea>, self: int, pos: Pos, radius: nat, detour: bool, now: int, jamInterval: nat): nat {
    if |areas| == 0 then 0
    else
      var last := areas[|areas| - 1];
      ExpiredCount(areas[..|areas| - 1], self, pos, radius, detour, now, jamInterval)
      + (if Expires(last, self, Inside(pos, last.center, radius), detour, now, jamInterval) then 1 else 0)
  }

  /** The indices of the areas a visit keeps: exactly those that do not
      expire, in increasing order. */
  function KeptIndices(areas: seq<TimedArea>, self: int, pos: Pos, radius: nat, detour: bool, now: int, jamInterval: nat)
    : (idx: seq<nat>)
    ensures forall i :: 0 <= i < |idx| ==> idx[i] < |areas|
    ensures forall i, j :: 0 <= i < j < |idx| ==> idx[i] < idx[j]
    ensures forall j :: 0 <= j < |areas| ==>
              (j in idx <==> !Expires(areas[j], self, Inside(pos, areas[j].center, radius), detour, now, jamInterval))
  {
    if |areas| == 0 then []
    else
      var n := |areas| - 1;
      var front := KeptIndices(areas[..n], self, pos, radius, detour, now, jamInterval);
      assert forall j :: 0 <= j < n ==> areas[..n][j] == areas[j];
      if Expires(areas[n], self, Inside(pos, areas[n].center, radius), detour, now, jamInterval) then front
      else front + [n]
  }

  /** The visit of satellite `self` at `pos` to every area of the registry: areas
      it has been calm in for the whole update interval are deleted, the others
      record it exactly when it is inside them. Areas are independent of each
      other, so the registry is processed here from its last area backwards. */
  function AgeAreas(areas: seq<TimedArea>, self: int, pos: Pos, radius: nat, detour: bool, now: int, jamInterval: nat)
    : (r: seq<TimedArea>)
    ensures |r| + ExpiredCount(areas, self, pos, radius, detour, now, jamInterval) == |areas|
    ensures forall i :: 0 <= i < |r| ==> (Recorded(r[i], self) <==> Inside(pos, r[i].center, radius))
  {
    if |areas| == 0 then []
    else
      var last := areas[|areas| - 1];
      var inside := Inside(pos, last.center, radius);
      var front := AgeAreas(areas[..|areas| - 1], self, pos, radius, detour, now, jamInterval);
      if Expires(last, self, inside, detour, now, jamInterval) then front
      else front + [AgeOne(last, self, inside, detour, now)]
  }

  /** The `i`-th area left after a visit is the `i`-th kept area, aged by the
      visit: exactly the expiring areas are erased, and the others keep their
      order and are not repeated. */
  lemma {:induction false} AgeAreasFollowsKept(areas: seq<TimedArea>, self: int, pos: Pos, radius: nat, detour: bool, now: int, jamInterval: nat)
    ensures var r := AgeAreas(areas, self, pos, radius, detour, now, jamInterval);
            var idx := KeptIndices(areas, self, pos, radius, detour, now, jamInterval);
            |r| == |idx|
            && forall i :: 0 <= i < |r| ==>
                 r[i] == AgeOne(areas[idx[i]], self, Inside(pos, areas[idx[i]].center, radius), detour, now)
  {
    if |areas| > 0 {
      var n := |areas| - 1;
      AgeAreasFollowsKept(areas[..n], self, pos, radius, detour, now, jamInterval);
      AgeStep(areas, self, pos, radius, detour, now, jamInterval, AgeAreas(areas[..n], self, pos, radius, detour, now, jamInterval));
    }
  }

  /** The step of `AgeAreas`: if the areas before the last one age into `front`
      by the kept indices, the whole registry ages by its kept indices. */
  lemma AgeStep(areas: seq<TimedArea>, self: int, pos: Pos, radius: nat, detour: bool, now: int, jamInterval: nat,
                front: seq<TimedArea>)
    requires |areas| > 0
    requires var n := |areas| - 1;
             var idx := KeptIndices(areas[..n], self, pos, radius, detour, now, jamInterval);
             |front| == |idx|
             && forall i :: 0 <= i < |front| ==>
                  front[i] == AgeOne(areas[..n][idx[i]], self, Inside(pos, areas[..n][idx[i]].center, radius), detour, now)
    ensures var n := |areas| - 1;
            var last := areas[n];
            var inside := Inside(pos, last.center, radius);
            var r := if Expires(last, self, inside, detour, now, jamInterval) then front
                     else front + [AgeOne(last, self, inside, detour, now)];
            var idx := KeptIndices(areas, self, pos, radius, detour, now, jamInterval);
            |r| == |idx|
            && forall i :: 0 <= i < |r| ==>
                 r[i] == AgeOne(areas[idx[i]], self, Inside(pos, areas[idx[i]].center, radius), detour, now)
  {
    var n := |areas| - 1;
    var idxF := KeptIndices(areas[..n], self, pos, radius, detour, now, jamInterval);
    forall i | 0 <= i < |idxF| ensures areas[..n][idxF[i]] == areas[idxF[i]] { }
  }

  /** The same area, apart from satellite `self`'s own entry. */
  predicate SameBut(a: TimedArea, b: TimedArea, self: int) {
    a.center == b.center && Others(a.entered, self) == Others(b.entered, self)
  }

  /** Every area of `r` is an area of `areas` apart from `self`'s entry. */
  predicate ComesFrom(r: seq<TimedArea>, areas: seq<TimedArea>, self: int) {
    forall i :: 0 <= i < |r| ==> InRegistry(r[i], areas, self)
  }

  predicate InRegistry(a: TimedArea, areas: seq<TimedArea>, self: int) {
    exists j :: 0 <= j < |areas| && SameBut(areas[j], a, self)
  }

  /** Every area left after a visit is an area of the registry, with the entries
      of the other satellites untouched; the `i`-th area left is the `i`-th area
      kept, so the order is preserved and no area is repeated. */
  lemma {:induction false} AgedAreasComeFromRegistry(areas: seq<TimedArea>, self: int, pos: Pos, radius: nat, detour: bool, now: int, jamInterval: nat)
    ensures ComesFrom(AgeAreas(areas, self, pos, radius, detour, now, jamInterval), areas, self)
    ensures var r := AgeAreas(areas, self, pos, radius, detour, now, jamInterval);
            var idx := KeptIndices(areas, self, pos, radius, detour, now, jamInterval);
            |r| == |idx| && forall i :: 0 <= i < |r| ==> SameBut(areas[idx[i]], r[i], self)
  {
    AgeAreasFollowsKept(areas, self, pos, radius, detour, now, jamInterval);
    var r := AgeAreas(areas, self, pos, radius, detour, now, jamInterval);
    var idx := KeptIndices(areas, self, pos, radius, detour, now, jamInterval);
    forall i | 0 <= i < |r| ensures SameBut(areas[idx[i]], r[i], self) && InRegistry(r[i], areas, self) {
      assert SameBut(areas[idx[i]], r[i], self);
    }
  }

  /** While the satellite detours no area is deleted; every area keeps its place
      and centre, and every area the satellite is in carries the current time. */
  lemma {:induction false} NoDeletionWhileDetouring(areas: seq<TimedArea>, self: int, pos: Pos, radius: nat, now: int, jamInterval: nat)
    ensures var r := AgeAreas(areas, self, pos, radius, true, now, jamInterval);
            |r| == |areas|
            && forall i :: 0 <= i < |r| ==>
                 r[i].center == areas[i].center && Others(r[i].entered, self) == Others(areas[i].entered, self)
                 && (Recorded(r[i], self) ==> r[i].entered[self] == now)
  {
    if |areas| > 0 {
      NoDeletionWhileDetouring(areas[..|areas| - 1], self, pos, radius, now, jamInterval);
    }
  }

  /** The hysteresis verdict on the summed ISL load of interfaces 1.. against
      the summed ISL capacity. */
  function LoadVerdict(cfg: LeoConfig, a: LeoArbiter, areas: seq<TimedArea>, pos: Pos, devs: seq<Device>): (r: Outcome<Verdict>)
    requires |devs| >= 1
    ensures r.Ok? <==> IslLoad(devs, 1).Ok?
    ensures r.Ok? ==> r.value == Classify(cfg, Wrap64(IslLoad(devs, 1).value.0), IslLoad(devs, 1).value.1 * cfg.islCapacity,
                                          InJamArea(areas, pos, cfg.radius), a.detour)
  {
    var load :- IslLoad(devs, 1);
    Ok(Classify(cfg, Wrap64(load.0), load.1 * cfg.islCapacity, InJamArea(areas, pos, cfg.radius), a.detour))
  }

  /** The registry after verdict `v`: a founded area is appended (aborting
      past `MAX_AREAS`), then every area is aged by the visit. */
  function ApplyVerdict(cfg: LeoConfig, self: int, areas: seq<TimedArea>, pos: Pos, v: Verdict, now: int)
    : (r: Outcome<seq<TimedArea>>)
    requires v.foundArea ==> v.detour
    ensures r.Abort? <==> v.foundArea && |areas| >= MAX_AREAS
    ensures r.Ok? ==> r.value == AgeAreas(if v.foundArea then areas + [TimedArea(pos, map[])] else areas,
                                          self, pos, cfg.radius, v.detour, now, cfg.jamUpdateInterval)
    ensures r.Ok? && |areas| <= MAX_AREAS ==> |r.value| <= MAX_AREAS
    ensures r.Ok? ==> forall i :: 0 <= i < |r.value| ==> (Recorded(r.value[i], self) <==> Inside(pos, r.value[i].center, cfg.radius))
    ensures r.Ok? && v.detour ==> |r.value| >= |areas|
    ensures r.Ok? && v.foundArea ==> |r.value| == |areas| + 1 && r.value[|areas|] == TimedArea(pos, map[self := now])
    ensures r.Ok? && |r.value| > |areas| ==> v.foundArea
  {
    var pushed := if v.foundArea then areas + [TimedArea(pos, map[])] else areas;
    if v.foundArea && |pushed| > MAX_AREAS then Abort("The trafic jam list size is bigger than 30(too big)")
    else
      var aged := AgeAreas(pushed, self, pos, cfg.radius, v.detour, now, cfg.jamUpdateInterval);
      FoundedAreaSurvives(areas, pushed, aged, self, pos, cfg.radius, v, now, cfg.jamUpdateInterval);
      NoDeletionWhileDetouring(pushed, self, pos, cfg.radius, now, cfg.jamUpdateInterval);
      Ok(aged)
  }

  /** `UpdateDetour`: the new arbiter state and the new shared registry. `pos` is
      the satellite's current position and `devs` its interfaces (0 is the
      loopback). The new detour flag is the hysteresis verdict on the ISL load;
      a satellite that starts to detour outside every area founds one, which
      aborts when the registry already holds `MAX_AREAS` areas. */
  function UpdateDetour(cfg: LeoConfig, a: LeoArbiter, areas: seq<TimedArea>, pos: Pos, devs: seq<Device>, now: int)
    : (r: Outcome<(LeoArbiter, seq<TimedArea>)>)
    ensures |devs| != LEO_INTERFACES ==> r.Abort?
    ensures |devs| == LEO_INTERFACES && (exists i :: 1 <= i < |devs| && !devs[i].Gsl? && !devs[i].Isl?) ==> r.Abort?
    ensures r.Ok? ==> r.value.0 == a.(detour := r.value.0.detour)
    ensures r.Ok? && |areas| <= MAX_AREAS ==> |r.value.1| <= MAX_AREAS
    ensures r.Ok? ==> forall i :: 0 <= i < |r.value.1| ==> (Recorded(r.value.1[i], a.id) <==> Inside(pos, r.value.1[i].center, cfg.radius))
    ensures r.Ok? && r.value.0.detour ==> |r.value.1| >= |areas|
    ensures r.Ok? && |r.value.1| > |areas| ==>
              r.value.0.detour && !InJamArea(areas, pos, cfg.radius)
              && r.value.1[|r.value.1| - 1] == TimedArea(pos, map[a.id := now])
    ensures r.Ok? ==>
              |devs| == LEO_INTERFACES && LoadVerdict(cfg, a, areas, pos, devs).Ok?
              && var v := LoadVerdict(cfg, a, areas, pos, devs).value;
                 r.value.0.detour == v.detour
                 && (v.foundArea ==> |r.value.1| == |areas| + 1 && r.value.1[|areas|] == TimedArea(pos, map[a.id := now]))
                 && r.value.1 == AgeAreas(if v.foundArea then areas + [TimedArea(pos, map[])] else areas,
                                          a.id, pos, cfg.radius, v.detour, now, cfg.jamUpdateInterval)
    ensures |devs| == LEO_INTERFACES && LoadVerdict(cfg, a, areas, pos, devs).Ok? ==>
              (r.Abort? <==> LoadVerdict(cfg, a, areas, pos, devs).value.foundArea && |areas| >= MAX_AREAS)
    ensures r.Ok? ==> |r.value.1| <= |areas| + 1
  {
    if |devs| != LEO_INTERFACES then Abort("num interfaces in LEO must as 7")
    else
      var v :- LoadVerdict(cfg, a, areas, pos, devs);
      var aged :- ApplyVerdict(cfg, a.id, areas, pos, v, now);
      Ok((a.(detour := v.detour), aged))
  }

  /** A founded area contains its founder, which records itself at once; it is
      the last area of the registry. */
  lemma FoundedAreaSurvives(areas: seq<TimedArea>, pushed: seq<TimedArea>, aged: seq<TimedArea>, self: int, pos: Pos, radius: Positive,
                            v: Verdict, now: int, jamInterval: nat)
    requires pushed == if v.foundArea then areas + [TimedArea(pos, map[])] else areas
    requires v.foundArea ==> v.detour
    requires aged == AgeAreas(pushed, self, pos, radius, v.detour, now, jamInterval)
    ensures |aged| > |areas| ==> v.foundArea && aged[|aged| - 1] == TimedArea(pos, map[self := now])
    ensures v.foundArea ==> |aged| == |areas| + 1
  {
    if v.foundArea {
      NoDeletionWhileDetouring(pushed, self, pos, radius, now, jamInterval);
      assert pushed[..|pushed| - 1] == areas;
      CenterInside(pos, radius);
      assert map[][self := now] == map[self := now];
    }
  }

  /** A satellite's interfaces: the loopback and six GSL-class or ISL devices. */
  predicate WellShaped(devs: seq<Device>) {
    |devs| == LEO_INTERFACES && forall i :: 1 <= i < |devs| ==> devs[i].Gsl? || devs[i].Isl?
  }

  /** `UpdateState` of a LEO arbiter: refresh the receive rates, update the
      detour state, and plan the next update one refresh interval later (with no
      end-of-run check). */
  function UpdateState(cfg: LeoConfig, a: LeoArbiter, areas: seq<TimedArea>, pos: Pos, devs: seq<Device>, now: int)
    : (r: Outcome<(LeoArbiter, seq<Device>, seq<TimedArea>, int)>)
    requires cfg.rateInterval > 0
    ensures r.Ok? ==> RefreshNode(devs, {LEO_INTERFACES}, cfg.rateInterval, true) == Ok(r.value.1)
    ensures r.Ok? ==> UpdateDetour(cfg, a, areas, pos, r.value.1, now) == Ok((r.value.0, r.value.2))
    ensures r.Ok? ==> r.value.3 == now + cfg.rateInterval
    ensures r.Ok? ==> r.value.0 == a.(detour := r.value.0.detour) && |r.value.2| <= |areas| + 1
    ensures WellShaped(devs) && |areas| < MAX_AREAS ==> r.Ok?
  {
    var devs' :- RefreshNode(devs, {LEO_INTERFACES}, cfg.rateInterval, true);
    var u :- UpdateDetour(cfg, a, areas, pos, devs', now);
    Ok((u.0, devs', u.1, now + cfg.rateInterval))
  }

  /** The constructor: the static interval must have been initialised; the new
      arbiter starts calm and runs its first update at once. */
  function NewLeoArbiter(cfg: LeoConfig, id: int, nextGeo: int, table: Table, areas: seq<TimedArea>, pos: Pos, devs: seq<Device>, now: int)
    : (r: Outcome<(LeoArbiter, seq<Device>, seq<TimedArea>, int)>)
    ensures cfg.rateInterval == 0 ==> r.Abort?
    ensures r.Ok? ==> r.value.0.id == id && r.value.0.nextGeo == nextGeo && r.value.0.table == table
    ensures r.Ok? ==> r.value.3 == now + cfg.rateInterval
    ensures cfg.rateInterval > 0 ==> r == UpdateState(cfg, LeoArbiter(id, nextGeo, table, false), areas, pos, devs, now)
    ensures r.Ok? ==> r.value.0 == LeoArbiter(id, nextGeo, table, r.value.0.detour) && WellShaped(devs) && |r.value.2| <= |areas| + 1
    ensures cfg.rateInterval > 0 && WellShaped(devs) && |areas| < MAX_AREAS ==> r.Ok?
  {
    if cfg.rateInterval == 0 then Abort("Initialize must before")
    else UpdateState(cfg, LeoArbiter(id, nextGeo, table, false), areas, pos, devs, now)
  }
}
