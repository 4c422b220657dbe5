/** The combined satellite/ground-station arbiter of the older helper revision.

    One arbiter class serves satellites and ground stations. Deciding is the LEO
    rule (first candidate that is the target or calm; otherwise a satellite goes
    to its GEO relay and a ground station to its nearest satellite).

    Its detour update judges every interface separately, from 1 up to but not
    including the inter-layer link (interface 6): inside a jam area an interface
    at or above `inJam` of its capacity makes the node detour, one below
    `jamToNormal` counts as calm; outside every area an interface at or above
    `nonJam` makes the node detour and found a new area. The scan stops at the
    first interface that makes the node detour. When the node is inside some area
    and every scanned interface was calm, the areas around it that have become
    clearable are deleted; a new area is meant to become clearable one jam update
    interval after it was founded (`Flip`). As written, the scheduled call marks a
    copy of the area, so no area ever becomes clearable (`FlipAsWritten`,
    `AsWrittenRegistryNeverShrinks`). An area is centred on its founder and moves
    with it.

    The code gives a GSL-class interface a load and a capacity of zero and then
    applies the thresholds to it, and `0 >= 0 * factor` holds: every scan that
    reaches the ground-station link makes the node detour. `gslJudged` selects
    that behaviour (as written); with `gslJudged == false` such interfaces are
    skipped, as the code's own comment on them says is meant.
 */
module ArbiterLeoGs {
  import opened Outcomes
  import opened ReceiveRate
  import opened Topology
  import opened CandidateScan
  import ArbiterLeo
  import ArbiterGeo

  datatype LeoGsArbiter = LeoGsArbiter(id: int, nextGeo: int, table: Table, detour: bool)

  /** A jam area: a stable id standing for the list node, the node whose moving
      position is the centre, and whether it may be deleted yet. */
  datatype FlagArea = FlagArea(id: nat, owner: int, clearable: bool)

  datatype Registry = Registry(areas: seq<FlagArea>, nextId: nat)

  /** The event `ScheduleTraficJamArea` stands for: make area `id` clearable at
      time `at`. */
  datatype FlipEvent = FlipEvent(id: nat, at: int)

  /** Area ids are distinct and below `nextId`. */
  predicate WellFormed(reg: Registry) {
    (forall i :: 0 <= i < |reg.areas| ==> reg.areas[i].id < reg.nextId)
    && forall i, j :: 0 <= i < j < |reg.areas| ==> reg.areas[i].id != reg.areas[j].id
  }

  // ---------------------------------------------------------------------------
  // Deciding

  /** The candidate scan with the node lookup (`m_nodes.Get`) that precedes the
      arbiter lookup: a node id outside `[0, total)` aborts. Otherwise it is the
      plain scan. */
  function ScanNodes(cands: seq<Hop>, target: int, flags: seq<bool>, total: nat, from: nat): (r: Outcome<Option<nat>>)
    requires from <= |cands|
    decreases |cands| - from
    ensures r.Ok? ==> r == FirstUsable(cands, target, flags, from)
    ensures (forall j :: from <= j < |cands| ==> 0 <= cands[j].node < total) ==> r == FirstUsable(cands, target, flags, from)
  {
    if from == |cands| then Ok(None)
    else if !(0 <= cands[from].node < total) then Abort(OUT_OF_RANGE)
    else if cands[from].node == target then Ok(Some(from))
    else if !HasArbiter(flags, cands[from].node) then Abort(NULL_ARBITER)
    else if !flags[cands[from].node] then Ok(Some(from))
    else ScanNodes(cands, target, flags, total, from + 1)
  }

  /** `TopologySatelliteNetworkDecide`. `flags[i]` is the detour flag of the
      arbiter of node `i` (satellites and ground stations). */
  function Decide(c: Counts, a: LeoGsArbiter, target: int, key: ArbiterGeo.PacketKey,
                  flags: seq<bool>, geos: seq<ArbiterGeo.GeoArbiter>)
    : (r: Outcome<(Hop, seq<ArbiterGeo.GeoArbiter>)>)
    ensures target == a.id || !(0 <= a.id < c.LeoGs()) || !(0 <= target < |a.table|) ==> r.Abort?
    ensures r.Ok? ==> 0 <= target < |a.table|
    ensures r.Ok? && r.value.1 == geos ==>
              (exists k :: 0 <= k < |a.table[target]| && r.value.0 == a.table[target][k]
                           && Usable(a.table[target][k], target, flags)
                           && forall j :: 0 <= j < k ==> Detouring(a.table[target][j], target, flags))
              || (c.IsGs(a.id) && |a.table[target]| > 0 && r.value.0 == a.table[target][0]
                  && forall j :: 0 <= j < |a.table[target]| ==> Detouring(a.table[target][j], target, flags))
    ensures r.Ok? && r.value.1 != geos ==>
              c.IsSat(a.id)
              && (forall j :: 0 <= j < |a.table[target]| ==> Detouring(a.table[target][j], target, flags))
              && r.value.0 == Hop(a.nextGeo, LEO_ILL_IF, GEO_ILL_IF)
              && 0 <= GeoSlot(c, a) < |geos| == |r.value.1|
              && r.value.1 == geos[GeoSlot(c, a) := r.value.1[GeoSlot(c, a)]]
              && ArbiterGeo.Push(geos[GeoSlot(c, a)], key, a.id) == Ok(r.value.1[GeoSlot(c, a)])
    ensures ValidDecide(c, a, target) ==>
              forall k :: FirstUsableAt(a.table[target], target, flags, k) ==> r == Ok((a.table[target][k], geos))
    ensures ValidDecide(c, a, target) && c.IsSat(a.id)
            && (forall j :: 0 <= j < |a.table[target]| ==> Detouring(a.table[target][j], target, flags)) ==>
              (r.Ok? <==> 0 <= GeoSlot(c, a) < |geos| && key !in geos[GeoSlot(c, a)].provenance)
    ensures ValidDecide(c, a, target) && c.IsGs(a.id)
            && (forall j :: 0 <= j < |a.table[target]| ==> Detouring(a.table[target][j], target, flags)) ==>
              (r.Ok? <==> |a.table[target]| > 0)
  {
    if target == a.id then Abort("target_id == current_id")
    else if !(0 <= a.id < c.LeoGs()) then Abort("invalid m_node_id")
    else
      var cands :- ListToward(a.table, target);
      var found :- ScanNodes(cands, target, flags, c.LeoGs() + c.geos, 0);
      if found.Some? then
        assert FirstUsableAt(cands, target, flags, found.value);
        Ok((cands[found.value], geos))
      else if c.IsSat(a.id) then
        var gi := GeoSlot(c, a);
        if !(0 <= gi < |geos|) then Abort(NULL_ARBITER)
        else
          var g :- ArbiterGeo.Push(geos[gi], key, a.id);
          Ok((Hop(a.nextGeo, LEO_ILL_IF, GEO_ILL_IF), geos[gi := g]))
      else
        var first :- Head(cands);
        Ok((first, geos))
  }

  /** The index of a satellite's GEO relay among the GEO arbiters. */
  function GeoSlot(c: Counts, a: LeoGsArbiter): int {
    a.nextGeo - c.sats - c.gss
  }

  /** A decision at a satellite or ground station toward another valid target
      whose candidates all name existing nodes. */
  predicate ValidDecide(c: Counts, a: LeoGsArbiter, target: int) {
    target != a.id && 0 <= a.id < c.LeoGs() && 0 <= target < |a.table|
    && forall j :: 0 <= j < |a.table[target]| ==> 0 <= a.table[target][j].node < c.LeoGs() + c.geos
  }

  /** A ground station whose satellites all detour sends to the nearest one. */
  lemma {:induction false} GroundStationFallsBackToNearest(c: Counts, a: LeoGsArbiter, target: int, key: ArbiterGeo.PacketKey,
                                                          flags: seq<bool>, geos: seq<ArbiterGeo.GeoArbiter>)
    requires c.IsGs(a.id) && target != a.id && 0 <= target < |a.table| && |a.table[target]| > 0
    requires forall j :: 0 <= j < |a.table[target]| ==>
               Detouring(a.table[target][j], target, flags) && 0 <= a.table[target][j].node < c.LeoGs() + c.geos
    ensures Decide(c, a, target, key, flags, geos) == Ok((a.table[target][0], geos))
  {
    var cands := a.table[target];
    AllDetouringScan(cands, target, flags, 0);
  }

  lemma {:induction false} AllDetouringScan(cands: seq<Hop>, target: int, flags: seq<bool>, from: nat)
    requires from <= |cands|
    requires forall j :: from <= j < |cands| ==> Detouring(cands[j], target, flags)
    ensures FirstUsable(cands, target, flags, from) == Ok(None)
    decreases |cands| - from
  {
    if from < |cands| {
      AllDetouringScan(cands, target, flags, from + 1);
    }
  }

  // ---------------------------------------------------------------------------
  // Jam areas

  /** The node is strictly within `radius` of area `a`'s owner. */
  predicate InArea(a: FlagArea, self: int, positions: int -> Pos, radius: nat) {
    Inside(positions(self), positions(a.owner), radius)
  }

  function InAnyArea(areas: seq<FlagArea>, self: int, positions: int -> Pos, radius: nat): (b: bool)
    ensures b <==> exists i :: 0 <= i < |areas| && InArea(areas[i], self, positions, radius)
  {
    if |areas| == 0 then false
    else InArea(areas[0], self, positions, radius) || InAnyArea(areas[1..], self, positions, radius)
  }

  /** The area is deleted when the node clears its surroundings. */
  predicate Erasable(a: FlagArea, self: int, positions: int -> Pos, radius: nat) {
    InArea(a, self, positions, radius) && a.clearable
  }

  /** The areas that survive the node clearing its surroundings, in order. */
  function EraseAround(areas: seq<FlagArea>, self: int, positions: int -> Pos, radius: nat): (r: seq<FlagArea>)
    ensures forall a :: a in r <==> a in areas && !Erasable(a, self, positions, radius)
    ensures |r| <= |areas|
  {
    if |areas| == 0 then []
    else
      var rest := EraseAround(areas[1..], self, positions, radius);
      assert forall a :: a in areas <==> a == areas[0] || a in areas[1..];
      if Erasable(areas[0], self, positions, radius) then rest else [areas[0]] + rest
  }

  /** What one scanned interface says: the node must detour; or (in an area)
      the interface is calm. */
  datatype IfaceVerdict = IfaceVerdict(detour: bool, calm: bool)

  /** The per-interface rule; load and capacity are those of an ISL, or zero
      for a GSL-class interface that is judged. */
  function Judge(cfg: ArbiterLeo.LeoConfig, inArea: bool, nowBps: nat, targetBps: nat): (v: IfaceVerdict)
    ensures v.detour <==> !Below(nowBps, targetBps, if inArea then cfg.inJam else cfg.nonJam)
    ensures v.calm <==> inArea && !v.detour && Below(nowBps, targetBps, cfg.jamToNormal)
  {
    if inArea then
      if !Below(nowBps, targetBps, cfg.inJam) then IfaceVerdict(true, false)
      else IfaceVerdict(false, Below(nowBps, targetBps, cfg.jamToNormal))
    else IfaceVerdict(!Below(nowBps, targetBps, cfg.nonJam), false)
  }

  /** A GSL-class interface with nothing measured always demands a detour. */
  lemma ZeroLoadDetours(cfg: ArbiterLeo.LeoConfig, inArea: bool)
    ensures Judge(cfg, inArea, 0, 0).detour
  {
  }

  /** Interface `i` takes part in the thresholds. */
  predicate Judged(d: Device, gslJudged: bool) {
    d.Isl? || (gslJudged && d.Gsl?)
  }

  /** The verdict of a judged interface. */
  function IfaceJudge(cfg: ArbiterLeo.LeoConfig, inArea: bool, d: Device): IfaceVerdict
    requires d.Gsl? || d.Isl?
  {
    if d.Isl? then Judge(cfg, inArea, d.rx.rate, cfg.islCapacity) else Judge(cfg, inArea, 0, 0)
  }

  predicate Hot(cfg: ArbiterLeo.LeoConfig, inArea: bool, d: Device, gslJudged: bool) {
    (d.Gsl? || d.Isl?) && Judged(d, gslJudged) && IfaceJudge(cfg, inArea, d).detour
  }

  predicate Calm(cfg: ArbiterLeo.LeoConfig, inArea: bool, d: Device, gslJudged: bool) {
    (d.Gsl? || d.Isl?) && (!Judged(d, gslJudged) || IfaceJudge(cfg, inArea, d).calm)
  }

  /** The outcome of the interface scan: detour, and whether every scanned
      interface was calm. */
  datatype ScanResult = ScanResult(detour: bool, allCalm: bool)

  /** The interface scan from `i` up to (not including) `limit`, stopping at the
      first interface that demands a detour. The consistency check of the source
      is kept (it can never fail, see `ScanCheckNeverFails`). */
  function ScanFrom(cfg: ArbiterLeo.LeoConfig, devs: seq<Device>, i: nat, limit: nat, inArea: bool, gslJudged: bool)
    : (r: Outcome<ScanResult>)
    requires i <= limit <= |devs|
    decreases limit - i
    ensures r.Ok? ==> (r.value.detour <==> exists k :: i <= k < limit && Hot(cfg, inArea, devs[k], gslJudged))
    ensures r.Ok? && !r.value.detour ==> (r.value.allCalm <==> forall k :: i <= k < limit ==> Calm(cfg, inArea, devs[k], gslJudged))
    ensures r.Ok? && r.value.detour ==> !r.value.allCalm
    ensures (forall k :: i <= k < limit ==> devs[k].Gsl? || devs[k].Isl?) ==> r.Ok?
  {
    if i == limit then Ok(ScanResult(false, true))
    else
      var d := devs[i];
      if !(d.Gsl? || d.Isl?) then Abort("Unidentified NetDevice")
      else
        var v := if Judged(d, gslJudged) then IfaceJudge(cfg, inArea, d) else IfaceVerdict(false, false);
        var calm := !Judged(d, gslJudged) || v.calm;
        var normalToJam := v.detour && !inArea;
        // The (detour, jam-to-normal, normal-to-jam) combinations the code accepts.
        var consistent := (!v.detour && !normalToJam) || (v.detour && !v.calm);
        if !consistent then Abort("inconsistent detour state")
        else if v.detour then Ok(ScanResult(true, false))
        else
          assert !Hot(cfg, inArea, d, gslJudged) && (calm <==> Calm(cfg, inArea, d, gslJudged));
          assert (exists k :: i <= k < limit && Hot(cfg, inArea, devs[k], gslJudged))
                 <==> (exists k :: i + 1 <= k < limit && Hot(cfg, inArea, devs[k], gslJudged)) by {
            if exists k :: i <= k < limit && Hot(cfg, inArea, devs[k], gslJudged) {
              var k :| i <= k < limit && Hot(cfg, inArea, devs[k], gslJudged);
              assert k != i;
            }
          }
          var rest :- ScanFrom(cfg, devs, i + 1, limit, inArea, gslJudged);
          Ok(ScanResult(rest.detour, calm && rest.allCalm))
  }

  /** The consistency check inside the scan never fires: a failed scan always
      comes from an unidentified device. */
  lemma {:induction false} ScanCheckNeverFails(cfg: ArbiterLeo.LeoConfig, devs: seq<Device>, i: nat, limit: nat, inArea: bool, gslJudged: bool)
    requires i <= limit <= |devs|
    requires ScanFrom(cfg, devs, i, limit, inArea, gslJudged).Abort?
    ensures exists k :: i <= k < limit && !devs[k].Gsl? && !devs[k].Isl?
  {
  }

  /** The interfaces the scan covers: 1 up to the inter-layer link. */
  function ScanLimit(n: nat): nat {
    if n < LEO_ILL_IF then n else LEO_ILL_IF
  }

  /** `UpdateDetour` of the combined arbiter. Returns the new arbiter, the new
      registry, and the clearing event scheduled for a newly founded area. */
  function UpdateDetourWith(cfg: ArbiterLeo.LeoConfig, gslJudged: bool, a: LeoGsArbiter, reg: Registry,
                            positions: int -> Pos, devs: seq<Device>, now: int)
    : (r: Outcome<(LeoGsArbiter, Registry, Option<FlipEvent>)>)
    ensures |devs| != 7 && |devs| != 2 ==> r.Abort?
    ensures r.Ok? ==> r.value.0 == a.(detour := r.value.0.detour)
    ensures r.Ok? ==> (r.value.0.detour <==>
                         exists k :: 1 <= k < ScanLimit(|devs|)
                                     && Hot(cfg, InAnyArea(reg.areas, a.id, positions, cfg.radius), devs[k], gslJudged))
    ensures r.Ok? && |reg.areas| <= ArbiterLeo.MAX_AREAS ==> |r.value.1.areas| <= ArbiterLeo.MAX_AREAS
    ensures r.Ok? && r.value.2.Some? ==>
              r.value.0.detour && !InAnyArea(reg.areas, a.id, positions, cfg.radius)
              && r.value.1 == Registry(reg.areas + [FlagArea(reg.nextId, a.id, false)], reg.nextId + 1)
              && r.value.2.value == FlipEvent(reg.nextId, now + cfg.jamUpdateInterval)
    ensures r.Ok? && r.value.2.None? ==>
              r.value.1.nextId == reg.nextId
              && (r.value.1.areas == reg.areas
                  || (!r.value.0.detour && InAnyArea(reg.areas, a.id, positions, cfg.radius)
                      && r.value.1.areas == EraseAround(reg.areas, a.id, positions, cfg.radius)))
    ensures r.Ok? ==> (r.value.2.Some? <==> r.value.0.detour && !InAnyArea(reg.areas, a.id, positions, cfg.radius))
    ensures (|devs| == 7 || |devs| == 2) && (forall k :: 1 <= k < ScanLimit(|devs|) ==> devs[k].Gsl? || devs[k].Isl?) ==>
              (r.Abort? <==>
                 (exists k :: 1 <= k < ScanLimit(|devs|) && Hot(cfg, false, devs[k], gslJudged))
                 && !InAnyArea(reg.areas, a.id, positions, cfg.radius) && |reg.areas| >= ArbiterLeo.MAX_AREAS)
    ensures r.Ok? && InAnyArea(reg.areas, a.id, positions, cfg.radius)
            && (forall k :: 1 <= k < ScanLimit(|devs|) ==> Calm(cfg, true, devs[k], gslJudged)) ==>
              !r.value.0.detour && r.value.1 == Registry(EraseAround(reg.areas, a.id, positions, cfg.radius), reg.nextId)
    ensures r.Ok? && !(InAnyArea(reg.areas, a.id, positions, cfg.radius)
                       && forall k :: 1 <= k < ScanLimit(|devs|) ==> Calm(cfg, true, devs[k], gslJudged))
            && !(r.value.0.detour && !InAnyArea(reg.areas, a.id, positions, cfg.radius)) ==>
              r.value.1 == reg
  {
    if |devs| != 7 && |devs| != 2 then Abort("num interfaces in devices must as 7 or 2")
    else
      var inArea := InAnyArea(reg.areas, a.id, positions, cfg.radius);
      var scan :- ScanFrom(cfg, devs, 1, ScanLimit(|devs|), inArea, gslJudged);
      Settle(cfg, a, reg, positions, inArea, scan, now)
  }

  /** The registry step after the scan: a calm node inside an area erases the
      areas around it, a detouring node outside every area founds one (within
      the cap) and schedules its flip, anything else leaves the registry alone. */
  function Settle(cfg: ArbiterLeo.LeoConfig, a: LeoGsArbiter, reg: Registry, positions: int -> Pos,
                  inArea: bool, scan: ScanResult, now: int)
    : (r: Outcome<(LeoGsArbiter, Registry, Option<FlipEvent>)>)
    requires inArea == InAnyArea(reg.areas, a.id, positions, cfg.radius)
    requires scan.detour ==> !scan.allCalm
    ensures r.Abort? <==> scan.detour && !inArea && |reg.areas| >= ArbiterLeo.MAX_AREAS
    ensures r.Ok? ==> r.value.0 == a.(detour := scan.detour)
    ensures r.Ok? && |reg.areas| <= ArbiterLeo.MAX_AREAS ==> |r.value.1.areas| <= ArbiterLeo.MAX_AREAS
    ensures r.Ok? ==> (r.value.2.Some? <==> scan.detour && !inArea)
    ensures r.Ok? && r.value.2.Some? ==>
              r.value.1 == Registry(reg.areas + [FlagArea(reg.nextId, a.id, false)], reg.nextId + 1)
              && r.value.2.value == FlipEvent(reg.nextId, now + cfg.jamUpdateInterval)
    ensures r.Ok? && inArea && scan.allCalm ==>
              r.value.1 == Registry(EraseAround(reg.areas, a.id, positions, cfg.radius), reg.nextId)
    ensures r.Ok? && !(inArea && scan.allCalm) && !(scan.detour && !inArea) ==> r.value.1 == reg
  {
    var a' := a.(detour := scan.detour);
    if inArea && scan.allCalm then
      Ok((a', Registry(EraseAround(reg.areas, a.id, positions, cfg.radius), reg.nextId), None))
    else if scan.detour && !inArea then
      var reg' := Registry(reg.areas + [FlagArea(reg.nextId, a.id, false)], reg.nextId + 1);
      if |reg'.areas| > ArbiterLeo.MAX_AREAS then Abort("The trafic jam list size is bigger than 30(too big)")
      else Ok((a', reg', Some(FlipEvent(reg.nextId, now + cfg.jamUpdateInterval))))
    else Ok((a', reg, None))
  }

  /** Founding an area and clearing areas keep area ids distinct and below
      `nextId`. */
  lemma {:induction false} UpdateKeepsWellFormed(cfg: ArbiterLeo.LeoConfig, gslJudged: bool, a: LeoGsArbiter, reg: Registry,
                                                positions: int -> Pos, devs: seq<Device>, now: int)
    requires WellFormed(reg)
    requires UpdateDetourWith(cfg, gslJudged, a, reg, positions, devs, now).Ok?
    ensures WellFormed(UpdateDetourWith(cfg, gslJudged, a, reg, positions, devs, now).value.1)
  {
    var r := UpdateDetourWith(cfg, gslJudged, a, reg, positions, devs, now).value;
    if r.2.Some? {
      var ext := reg.areas + [FlagArea(reg.nextId, a.id, false)];
      assert r.1.areas == ext;
      assert forall i :: 0 <= i < |reg.areas| ==> ext[i] == reg.areas[i];
    } else if r.1.areas != reg.areas {
      EraseKeepsWellFormed(reg, a.id, positions, cfg.radius);
    }
  }

  lemma {:induction false} EraseKeepsWellFormed(reg: Registry, self: int, positions: int -> Pos, radius: nat)
    requires WellFormed(reg)
    ensures WellFormed(Registry(EraseAround(reg.areas, self, positions, radius), reg.nextId))
    decreases |reg.areas|
  {
    if |reg.areas| > 0 {
      var tail := Registry(reg.areas[1..], reg.nextId);
      EraseKeepsWellFormed(tail, self, positions, radius);
      var rest := EraseAround(tail.areas, self, positions, radius);
      var head := reg.areas[0];
      forall x | x in rest ensures x.id != head.id {
        assert x in reg.areas[1..];
        var j :| 0 <= j < |reg.areas[1..]| && reg.areas[1..][j] == x;
        assert reg.areas[j + 1] == x;
      }
      var r := [head] + rest;
      forall i, j | 0 <= i < j < |r| ensures r[i].id != r[j].id {
        if i == 0 {
          assert r[j] in rest;
        } else {
          assert r[i] == rest[i - 1] && r[j] == rest[j - 1];
        }
      }
      forall i | 0 <= i < |r| ensures r[i].id < reg.nextId {
        if i > 0 {
          assert r[i] == rest[i - 1];
        }
      }
    }
  }

  /** As written: an interface list whose scanned part contains a GSL-class
      device always makes the node detour, and such an update never deletes an
      area. */
  lemma {:induction false} AsWrittenGslForcesDetour(cfg: ArbiterLeo.LeoConfig, a: LeoGsArbiter, reg: Registry,
                                                   positions: int -> Pos, devs: seq<Device>, now: int, k: nat)
    requires 1 <= k < ScanLimit(|devs|) && devs[k].Gsl?
    requires UpdateDetourWith(cfg, true, a, reg, positions, devs, now).Ok?
    ensures var r := UpdateDetourWith(cfg, true, a, reg, positions, devs, now).value;
            r.0.detour && |r.1.areas| >= |reg.areas|
  {
    ZeroLoadDetours(cfg, InAnyArea(reg.areas, a.id, positions, cfg.radius));
    assert Hot(cfg, InAnyArea(reg.areas, a.id, positions, cfg.radius), devs[k], true);
  }

  /** As written: a ground station (loopback and one GSL) detours on every
      update, whatever it receives. */
  lemma AsWrittenGroundStationAlwaysDetours(cfg: ArbiterLeo.LeoConfig, a: LeoGsArbiter, reg: Registry,
                                            positions: int -> Pos, rx: RateDevice, now: int)
    requires |reg.areas| < ArbiterLeo.MAX_AREAS
    ensures var r := UpdateDetourWith(cfg, true, a, reg, positions, [Loopback, Gsl(rx)], now);
            r.Ok? && r.value.0.detour
  {
    var devs := [Loopback, Gsl(rx)];
    var inArea := InAnyArea(reg.areas, a.id, positions, cfg.radius);
    ZeroLoadDetours(cfg, inArea);
    assert ScanFrom(cfg, devs, 1, 2, inArea, true) == Ok(ScanResult(true, false));
  }

  /** Corrected: GSL-class interfaces are not judged, so a node detours only
      because of an ISL, and a ground station never detours. */
  lemma CorrectedGroundStationNeverDetours(cfg: ArbiterLeo.LeoConfig, a: LeoGsArbiter, reg: Registry,
                                           positions: int -> Pos, rx: RateDevice, now: int)
    ensures var r := UpdateDetourWith(cfg, false, a, reg, positions, [Loopback, Gsl(rx)], now);
            r.Ok? && !r.value.0.detour && r.value.2.None?
  {
    var devs := [Loopback, Gsl(rx)];
    var inArea := InAnyArea(reg.areas, a.id, positions, cfg.radius);
    assert ScanFrom(cfg, devs, 2, 2, inArea, false) == Ok(ScanResult(false, true));
  }

  /** Corrected: a satellite inside an area whose ISLs are all below the
      `jamToNormal` fraction deletes the clearable areas around it. */
  lemma {:induction false} CorrectedCalmSatelliteClears(cfg: ArbiterLeo.LeoConfig, a: LeoGsArbiter, reg: Registry,
                                                       positions: int -> Pos, devs: seq<Device>, now: int)
    requires |devs| == 7
    requires InAnyArea(reg.areas, a.id, positions, cfg.radius)
    requires forall k :: 1 <= k < LEO_ILL_IF ==> devs[k].Gsl? || (devs[k].Isl? && Below(devs[k].rx.rate, cfg.islCapacity, cfg.jamToNormal)
                                                                  && Below(devs[k].rx.rate, cfg.islCapacity, cfg.inJam))
    ensures var r := UpdateDetourWith(cfg, false, a, reg, positions, devs, now);
            r.Ok? && !r.value.0.detour
            && r.value.1 == Registry(EraseAround(reg.areas, a.id, positions, cfg.radius), reg.nextId)
  {
    var inArea := InAnyArea(reg.areas, a.id, positions, cfg.radius);
    forall k | 1 <= k < LEO_ILL_IF
      ensures !Hot(cfg, inArea, devs[k], false) && Calm(cfg, inArea, devs[k], false)
    {
    }
    var scan := ScanFrom(cfg, devs, 1, LEO_ILL_IF, inArea, false);
    assert scan.Ok?;
  }

  /** `ScheduleTraficJamArea`: area `id`, if still present, becomes clearable;
      nothing else changes. */
  function Flip(reg: Registry, id: nat): (r: Registry)
    ensures r.nextId == reg.nextId && |r.areas| == |reg.areas|
    ensures forall i :: 0 <= i < |r.areas| ==>
              r.areas[i].id == reg.areas[i].id && r.areas[i].owner == reg.areas[i].owner
              && r.areas[i].clearable == (reg.areas[i].clearable || reg.areas[i].id == id)
    decreases |reg.areas|
  {
    if |reg.areas| == 0 then reg
    else
      var head := reg.areas[0];
      var rest := Flip(Registry(reg.areas[1..], reg.nextId), id);
      Registry([head.(clearable := head.clearable || head.id == id)] + rest.areas, reg.nextId)
  }

  /** As written: `Simulator::Schedule` stores a copy of the area pair, and the
      scheduled call marks that copy; the registry is left as it was. */
  function FlipAsWritten(reg: Registry, id: nat): Registry {
    reg
  }

  /** No area of the registry may be deleted yet. */
  predicate NoneClearable(reg: Registry) {
    forall i :: 0 <= i < |reg.areas| ==> !reg.areas[i].clearable
  }

  /** Clearing the surroundings deletes nothing when no area is clearable. */
  lemma {:induction false} EraseKeepsUnclearable(areas: seq<FlagArea>, self: int, positions: int -> Pos, radius: nat)
    requires forall i :: 0 <= i < |areas| ==> !areas[i].clearable
    ensures EraseAround(areas, self, positions, radius) == areas
  {
    if |areas| > 0 {
      EraseKeepsUnclearable(areas[1..], self, positions, radius);
      assert [areas[0]] + areas[1..] == areas;
    }
  }

  /** The inputs of one detour update of some node. */
  datatype Tick = Tick(node: LeoGsArbiter, positions: int -> Pos, devs: seq<Device>, now: int)

  /** As written: a sequence of detour updates on the shared registry. Every
      flip an update schedules is applied as written, which changes nothing, so
      its firing time does not matter. */
  function RunAsWritten(cfg: ArbiterLeo.LeoConfig, gslJudged: bool, reg: Registry, ticks: seq<Tick>): Outcome<Registry>
    decreases |ticks|
  {
    if |ticks| == 0 then Ok(reg)
    else
      var t := ticks[0];
      var u :- UpdateDetourWith(cfg, gslJudged, t.node, reg, t.positions, t.devs, t.now);
      var reg' := if u.2.Some? then FlipAsWritten(u.1, u.2.value.id) else u.1;
      RunAsWritten(cfg, gslJudged, reg', ticks[1..])
  }

  /** One update as written keeps every area, in order, and no area becomes
      clearable. */
  lemma {:induction false} AsWrittenUpdateKeepsAreas(cfg: ArbiterLeo.LeoConfig, gslJudged: bool, a: LeoGsArbiter, reg: Registry,
                                                    positions: int -> Pos, devs: seq<Device>, now: int)
    requires NoneClearable(reg)
    requires UpdateDetourWith(cfg, gslJudged, a, reg, positions, devs, now).Ok?
    ensures var u := UpdateDetourWith(cfg, gslJudged, a, reg, positions, devs, now).value;
            |u.1.areas| >= |reg.areas| && u.1.areas[..|reg.areas|] == reg.areas && NoneClearable(u.1)
  {
    EraseKeepsUnclearable(reg.areas, a.id, positions, cfg.radius);
  }

  /** As written the shared registry never shrinks: starting from areas none of
      which is clearable, every run of updates keeps all of them, so once thirty
      areas have been founded the next founding aborts. */
  lemma {:induction false} AsWrittenRegistryNeverShrinks(cfg: ArbiterLeo.LeoConfig, gslJudged: bool, reg: Registry, ticks: seq<Tick>)
    requires NoneClearable(reg)
    requires RunAsWritten(cfg, gslJudged, reg, ticks).Ok?
    ensures var r := RunAsWritten(cfg, gslJudged, reg, ticks).value;
            |r.areas| >= |reg.areas| && r.areas[..|reg.areas|] == reg.areas && NoneClearable(r)
    decreases |ticks|
  {
    if |ticks| > 0 {
      var t := ticks[0];
      AsWrittenUpdateKeepsAreas(cfg, gslJudged, t.node, reg, t.positions, t.devs, t.now);
      var u := UpdateDetourWith(cfg, gslJudged, t.node, reg, t.positions, t.devs, t.now).value;
      var reg' := if u.2.Some? then FlipAsWritten(u.1, u.2.value.id) else u.1;
      AsWrittenRegistryNeverShrinks(cfg, gslJudged, reg', ticks[1..]);
      var r := RunAsWritten(cfg, gslJudged, reg, ticks).value;
      assert r == RunAsWritten(cfg, gslJudged, reg', ticks[1..]).value;
      assert r.areas[..|reg.areas|] == r.areas[..|reg'.areas|][..|reg.areas|];
    }
  }

  /** Corrected: once its flip has fired, an area whose owner is within the
      radius of a node clearing its surroundings is deleted; as written the same
      area stays. */
  lemma CorrectedFlipLetsAreaClear(reg: Registry, id: nat, self: int, positions: int -> Pos, radius: nat, i: nat)
    requires i < |reg.areas| && reg.areas[i].id == id && !reg.areas[i].clearable
    requires InArea(reg.areas[i], self, positions, radius)
    ensures Flip(reg, id).areas[i] !in EraseAround(Flip(reg, id).areas, self, positions, radius)
    ensures FlipAsWritten(reg, id).areas[i] in EraseAround(FlipAsWritten(reg, id).areas, self, positions, radius)
  {
  }

  lemma FlipKeepsWellFormed(reg: Registry, id: nat)
    requires WellFormed(reg)
    ensures WellFormed(Flip(reg, id))
  {
  }

  /** `UpdateReceiveDatarate` of the combined arbiter: seven or two interfaces,
      GSL-class or ISL devices after the loopback. */
  function UpdateReceiveDatarate(devs: seq<Device>, interval: int): (r: Outcome<seq<Device>>)
    requires interval > 0
    ensures r.Ok? <==> (|devs| == 7 || |devs| == 2) && forall i :: 1 <= i < |devs| ==> devs[i].Gsl? || devs[i].Isl?
    ensures r.Ok? ==> |r.value| == |devs| && forall i :: 1 <= i < |devs| ==> r.value[i] == RefreshDevice(devs[i], interval)
  {
    RefreshNode(devs, {7, 2}, interval, true)
  }

  /** A satellite (7 interfaces) or ground station (2) whose interfaces past the
      loopback are all GSL-class or ISL. */
  predicate Shaped(devs: seq<Device>) {
    (|devs| == 7 || |devs| == 2) && forall i :: 1 <= i < |devs| ==> devs[i].Gsl? || devs[i].Isl?
  }

  /** `UpdateState` of the combined arbiter: refresh the receive rates, run the
      detour update on the refreshed devices, and plan the next update one
      refresh interval later. Returns the arbiter, the devices, the registry,
      the scheduled flip and the time of the next update. */
  function UpdateState(cfg: ArbiterLeo.LeoConfig, gslJudged: bool, a: LeoGsArbiter, reg: Registry,
                       positions: int -> Pos, devs: seq<Device>, now: int)
    : (r: Outcome<(LeoGsArbiter, seq<Device>, Registry, Option<FlipEvent>, int)>)
    requires cfg.rateInterval > 0
    ensures r.Ok? ==> UpdateReceiveDatarate(devs, cfg.rateInterval) == Ok(r.value.1)
    ensures r.Ok? ==> UpdateDetourWith(cfg, gslJudged, a, reg, positions, r.value.1, now)
                      == Ok((r.value.0, r.value.2, r.value.3))
    ensures r.Ok? ==> r.value.4 == now + cfg.rateInterval
    ensures r.Ok? ==> r.value.0 == a.(detour := r.value.0.detour) && Shaped(devs)
    ensures Shaped(devs) && |reg.areas| < ArbiterLeo.MAX_AREAS ==> r.Ok?
  {
    var devs' :- UpdateReceiveDatarate(devs, cfg.rateInterval);
    assert forall k :: 1 <= k < |devs'| ==> devs'[k].Gsl? || devs'[k].Isl?;
    var u :- UpdateDetourWith(cfg, gslJudged, a, reg, positions, devs', now);
    Ok((u.0, devs', u.1, u.2, now + cfg.rateInterval))
  }

  /** The combined arbiter's constructor: calm, with the given relay and table;
      it aborts unless the class was initialised first, and otherwise runs its
      first state update at once. */
  function NewLeoGsArbiter(cfg: ArbiterLeo.LeoConfig, gslJudged: bool, id: int, nextGeo: int, table: Table,
                           reg: Registry, positions: int -> Pos, devs: seq<Device>, now: int)
    : (r: Outcome<(LeoGsArbiter, seq<Device>, Registry, Option<FlipEvent>, int)>)
    ensures cfg.rateInterval == 0 ==> r == Abort("Initialize must before")
    ensures cfg.rateInterval > 0 ==> r == UpdateState(cfg, gslJudged, LeoGsArbiter(id, nextGeo, table, false), reg, positions, devs, now)
    ensures r.Ok? ==> r.value.0 == LeoGsArbiter(id, nextGeo, table, r.value.0.detour) && Shaped(devs)
    ensures cfg.rateInterval > 0 && Shaped(devs) && |reg.areas| < ArbiterLeo.MAX_AREAS ==> r.Ok?
  {
    if cfg.rateInterval == 0 then Abort("Initialize must before")
    else UpdateState(cfg, gslJudged, LeoGsArbiter(id, nextGeo, table, false), reg, positions, devs, now)
  }
}
