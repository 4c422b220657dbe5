/** The two helpers that install the arbiters and feed them the snapshots.

    The current helper creates one LEO arbiter per satellite (GEO relay not yet
    known, `-2`), one ground-station arbiter per ground station (id `S + i`) and
    one GEO arbiter per relay (id `S + G + i`), all with empty tables, then loads
    the snapshot for time 0 and, unless the network is forced static, schedules
    the next load one update interval later while that is before the end of the
    run. A forwarding line for node `n` is stored in the LEO arbiter `n` when
    `n < S` and in the ground-station arbiter `n - S` otherwise. Each LEO and
    ground-station constructor runs its arbiter's first update at once, so
    `Install` gives the arbiters as placed and `InstallAndUpdate` threads the
    shared jam-area registry through the constructors in creation order.

    The older helper creates its combined arbiters before initialising the class
    they belong to, so the first constructor finds the receive-rate interval
    still zero and aborts whenever there is at least one satellite or ground
    station.
 */
module Helpers {
  import opened Outcomes
  import opened Topology
  import opened ForwardingState
  import ArbiterLeo
  import ArbiterGs
  import ArbiterGeo

  /** The GEO relay a satellite has before the first ILL snapshot. */
  const NO_GEO: int := -2

  datatype Installation = Installation(
    leos: seq<ArbiterLeo.LeoArbiter>,
    gss: seq<ArbiterGs.GsArbiter>,
    geos: seq<ArbiterGeo.GeoArbiter>)

  /** The arbiters sit where the helper's vectors put them. */
  predicate Placed(c: Counts, inst: Installation) {
    |inst.leos| == c.sats && |inst.gss| == c.gss && |inst.geos| == c.geos
    && (forall i :: 0 <= i < c.sats ==> inst.leos[i].id == i)
    && (forall i :: 0 <= i < c.gss ==> inst.gss[i].id == c.sats + i)
    && (forall i :: 0 <= i < c.geos ==> inst.geos[i].id == c.sats + c.gss + i)
  }

  /** The tables of all satellites and ground stations, by node id. */
  function Tables(inst: Installation): (t: seq<Table>)
    ensures |t| == |inst.leos| + |inst.gss|
    ensures forall i :: 0 <= i < |inst.leos| ==> t[i] == inst.leos[i].table
    ensures forall i :: 0 <= i < |inst.gss| ==> t[|inst.leos| + i] == inst.gss[i].table
  {
    seq(|inst.leos|, i requires 0 <= i < |inst.leos| => inst.leos[i].table)
    + seq(|inst.gss|, i requires 0 <= i < |inst.gss| => inst.gss[i].table)
  }

  /** Gives node `n` the table `t[n]`: the LEO arbiter when `n < S`, else the
      ground-station arbiter `n - S`. */
  function WithTables(inst: Installation, t: seq<Table>): (r: Installation)
    requires |t| == |inst.leos| + |inst.gss|
    ensures |r.leos| == |inst.leos| && |r.gss| == |inst.gss| && r.geos == inst.geos
    ensures forall i :: 0 <= i < |inst.leos| ==> r.leos[i] == inst.leos[i].(table := t[i])
    ensures forall i :: 0 <= i < |inst.gss| ==> r.gss[i] == inst.gss[i].(table := t[|inst.leos| + i])
  {
    Installation(
      seq(|inst.leos|, i requires 0 <= i < |inst.leos| => inst.leos[i].(table := t[i])),
      seq(|inst.gss|, i requires 0 <= i < |inst.gss| => inst.gss[i].(table := t[|inst.leos| + i])),
      inst.geos)
  }

  /** Reading back the tables just given returns them. */
  lemma TablesWithTables(inst: Installation, t: seq<Table>)
    requires |t| == |inst.leos| + |inst.gss|
    ensures Tables(WithTables(inst, t)) == t
  {
  }

  /** `Install` before the first load: ids by position, empty tables, no relay. */
  function Install(c: Counts): (inst: Installation)
    ensures Placed(c, inst)
    ensures Tables(inst) == InitialTables(c.LeoGs())
    ensures forall i :: 0 <= i < c.sats ==> inst.leos[i].nextGeo == NO_GEO && !inst.leos[i].detour
    ensures forall i :: 0 <= i < c.geos ==> inst.geos[i].provenance == map[]
  {
    var empty := InitialTables(c.LeoGs());
    var inst := Installation(
      seq(c.sats, i requires 0 <= i < c.sats => ArbiterLeo.LeoArbiter(i, NO_GEO, empty[i], false)),
      seq(c.gss, i requires 0 <= i < c.gss => ArbiterGs.GsArbiter(c.sats + i, empty[c.sats + i])),
      seq(c.geos, i => ArbiterGeo.GeoArbiter(c.sats + c.gss + i, map[])));
    assert Tables(inst) == empty;
    inst
  }

  /** A ground station's interfaces: the loopback and one GSL. */
  predicate GsShaped(devs: seq<Device>) {
    |devs| == ArbiterGs.GS_INTERFACES && devs[1].Gsl?
  }

  /** Nodes `from` up to `to` have satellite interfaces. */
  predicate SatsShaped(devs: seq<seq<Device>>, from: nat, to: nat)
    requires from <= to <= |devs|
    decreases (to as int) - (from as int)
  {
    from == to || (ArbiterLeo.WellShaped(devs[from]) && SatsShaped(devs, from + 1, to))
  }

  /** Nodes `from` up to `to` have ground-station interfaces. */
  predicate GssShaped(devs: seq<seq<Device>>, from: nat, to: nat)
    requires from <= to <= |devs|
    decreases (to as int) - (from as int)
  {
    from == to || (GsShaped(devs[from]) && GssShaped(devs, from + 1, to))
  }

  /** `leos[k]` is the arbiter of satellite `i + k`: its id, no relay yet, the
      initial table, and some detour flag. */
  predicate LeosBuilt(leos: seq<ArbiterLeo.LeoArbiter>, empty: seq<Table>, i: nat)
    decreases |leos|
  {
    |leos| == 0
    || (i < |empty| && leos[0] == ArbiterLeo.LeoArbiter(i, NO_GEO, empty[i], leos[0].detour)
        && LeosBuilt(leos[1..], empty, i + 1))
  }

  lemma {:induction false} LeosBuiltAt(leos: seq<ArbiterLeo.LeoArbiter>, empty: seq<Table>, i: nat, k: nat)
    requires LeosBuilt(leos, empty, i) && k < |leos|
    ensures i + k < |empty| && leos[k] == ArbiterLeo.LeoArbiter(i + k, NO_GEO, empty[i + k], leos[k].detour)
    decreases k
  {
    if k > 0 {
      LeosBuiltAt(leos[1..], empty, i + 1, k - 1);
    }
  }

  /** One satellite's constructor call: the new arbiter and the registry it
      leaves. */
  function NewLeo(cfg: ArbiterLeo.LeoConfig, id: int, table: Table, areas: seq<ArbiterLeo.TimedArea>, pos: Pos, devs: seq<Device>, now: int)
    : (r: Outcome<(ArbiterLeo.LeoArbiter, seq<ArbiterLeo.TimedArea>)>)
    ensures r.Ok? ==> r.value.0 == ArbiterLeo.LeoArbiter(id, NO_GEO, table, r.value.0.detour)
                      && ArbiterLeo.WellShaped(devs) && |r.value.1| <= |areas| + 1
    ensures cfg.rateInterval == 0 ==> r.Abort?
    ensures cfg.rateInterval > 0 && ArbiterLeo.WellShaped(devs) && |areas| < ArbiterLeo.MAX_AREAS ==> r.Ok?
  {
    var made :- ArbiterLeo.NewLeoArbiter(cfg, id, NO_GEO, table, areas, pos, devs, now);
    Ok((made.0, made.2))
  }

  /** The satellite constructor calls of `Install` from satellite `i` on: each
      runs `NewLeoArbiter` on its own interfaces and position, with the shared
      jam-area registry the previous constructors left. Returns the arbiters
      and the registry after the last one. */
  function ConstructLeos(cfg: ArbiterLeo.LeoConfig, empty: seq<Table>, areas: seq<ArbiterLeo.TimedArea>,
                         pos: seq<Pos>, devs: seq<seq<Device>>, now: int, i: nat)
    : (r: Outcome<(seq<ArbiterLeo.LeoArbiter>, seq<ArbiterLeo.TimedArea>)>)
    requires i <= cfg.counts.sats <= |empty| && cfg.counts.sats <= |pos| && cfg.counts.sats <= |devs|
    decreases cfg.counts.sats - i
    ensures r.Ok? ==> |r.value.0| == cfg.counts.sats - i
    ensures r.Ok? ==> LeosBuilt(r.value.0, empty, i)
    ensures r.Ok? ==> SatsShaped(devs, i, cfg.counts.sats) && |r.value.1| <= |areas| + (cfg.counts.sats - i)
    ensures cfg.rateInterval == 0 && i < cfg.counts.sats ==> r.Abort?
    ensures (cfg.rateInterval > 0 && SatsShaped(devs, i, cfg.counts.sats)
             && |areas| + (cfg.counts.sats - i) <= ArbiterLeo.MAX_AREAS) ==> r.Ok?
  {
    if i == cfg.counts.sats then Ok(([], areas))
    else
      var first :- NewLeo(cfg, i, empty[i], areas, pos[i], devs[i], now);
      var rest :- ConstructLeos(cfg, empty, first.1, pos, devs, now, i + 1);
      var all := [first.0] + rest.0;
      assert all[1..] == rest.0;
      Ok((all, rest.1))
  }

  /** The satellites are constructed one after another: satellite `i`'s
      arbiter is the one `NewLeoArbiter` builds on the registry it is given, and
      the rest are built on the registry that constructor leaves. */
  lemma ConstructLeosStep(cfg: ArbiterLeo.LeoConfig, empty: seq<Table>, areas: seq<ArbiterLeo.TimedArea>,
                          pos: seq<Pos>, devs: seq<seq<Device>>, now: int, i: nat)
    requires i < cfg.counts.sats <= |empty| && cfg.counts.sats <= |pos| && cfg.counts.sats <= |devs|
    requires ConstructLeos(cfg, empty, areas, pos, devs, now, i).Ok?
    ensures var first := ArbiterLeo.NewLeoArbiter(cfg, i, NO_GEO, empty[i], areas, pos[i], devs[i], now);
            var r := ConstructLeos(cfg, empty, areas, pos, devs, now, i).value;
            first.Ok? && r.0[0] == first.value.0
            && ConstructLeos(cfg, empty, first.value.2, pos, devs, now, i + 1) == Ok((r.0[1..], r.1))
  {
  }

  /** The ground-station constructor calls of `Install` from station `i` on:
      station `i` is node `S + i` and runs `NewGsArbiter` on its interfaces. */
  function ConstructGss(c: Counts, interval: nat, empty: seq<Table>, devs: seq<seq<Device>>, now: int, i: nat)
    : (r: Outcome<seq<ArbiterGs.GsArbiter>>)
    requires i <= c.gss && c.LeoGs() <= |empty| && c.LeoGs() <= |devs|
    decreases c.gss - i
    ensures r.Ok? <==> (i < c.gss ==> interval > 0) && GssShaped(devs, c.sats + i, c.LeoGs())
    ensures r.Ok? ==> |r.value| == c.gss - i
                      && forall k :: 0 <= k < |r.value| ==> r.value[k] == ArbiterGs.GsArbiter(c.sats + i + k, empty[c.sats + i + k])
    ensures r.Ok? && i < c.gss ==> ArbiterGs.NewGsArbiter(c.sats + i, empty[c.sats + i], interval, devs[c.sats + i], now).Ok?
  {
    if i == c.gss then Ok([])
    else
      var first :- ArbiterGs.NewGsArbiter(c.sats + i, empty[c.sats + i], interval, devs[c.sats + i], now);
      var rest :- ConstructGss(c, interval, empty, devs, now, i + 1);
      Ok([first.0] + rest)
  }

  /** Arbiters built from the initial tables are those `Install` places,
      apart from the satellites' detour flags. */
  lemma BuiltIsInstall(c: Counts, leos: seq<ArbiterLeo.LeoArbiter>, gss: seq<ArbiterGs.GsArbiter>)
    requires |leos| == c.sats && LeosBuilt(leos, InitialTables(c.LeoGs()), 0)
    requires |gss| == c.gss
    requires forall k :: 0 <= k < |gss| ==> gss[k] == ArbiterGs.GsArbiter(c.sats + k, InitialTables(c.LeoGs())[c.sats + k])
    ensures gss == Install(c).gss
    ensures forall i :: 0 <= i < c.sats ==> leos[i] == Install(c).leos[i].(detour := leos[i].detour)
    ensures Placed(c, Installation(leos, gss, Install(c).geos))
  {
    var plain := Install(c);
    forall i | 0 <= i < c.sats
      ensures leos[i] == plain.leos[i].(detour := leos[i].detour)
    {
      LeosBuiltAt(leos, InitialTables(c.LeoGs()), 0, i);
    }
    assert forall k :: 0 <= k < c.gss ==> gss[k] == plain.gss[k];
  }

  /** `Install` with its constructor calls: every satellite's arbiter runs its
      first update at once (refreshing its receive rates, deciding its detour
      flag and possibly founding a jam area), every ground station's arbiter
      refreshes its receive rate, and the GEO arbiters are created empty.
      `devs[n]` and `pos[n]` are node `n`'s interfaces and position. Apart from
      the satellites' first detour flags the result is `Install(c)`. */
  function InstallAndUpdate(cfg: ArbiterLeo.LeoConfig, pos: seq<Pos>, devs: seq<seq<Device>>, now: int)
    : (r: Outcome<(Installation, seq<ArbiterLeo.TimedArea>)>)
    requires cfg.counts.sats <= |pos| && cfg.counts.LeoGs() <= |devs|
    ensures r.Ok? ==> Placed(cfg.counts, r.value.0)
    ensures r.Ok? ==> r.value.0.gss == Install(cfg.counts).gss && r.value.0.geos == Install(cfg.counts).geos
                      && forall i :: 0 <= i < cfg.counts.sats ==>
                           r.value.0.leos[i] == Install(cfg.counts).leos[i].(detour := r.value.0.leos[i].detour)
    ensures r.Ok? ==> |r.value.1| <= cfg.counts.sats
    ensures r.Ok? ==> SatsShaped(devs, 0, cfg.counts.sats) && GssShaped(devs, cfg.counts.sats, cfg.counts.LeoGs())
    ensures cfg.rateInterval == 0 && cfg.counts.LeoGs() > 0 ==> r.Abort?
    ensures (cfg.rateInterval > 0 && cfg.counts.sats <= ArbiterLeo.MAX_AREAS
             && SatsShaped(devs, 0, cfg.counts.sats) && GssShaped(devs, cfg.counts.sats, cfg.counts.LeoGs())) ==> r.Ok?
  {
    var c := cfg.counts;
    var empty := InitialTables(c.LeoGs());
    var leos :- ConstructLeos(cfg, empty, [], pos, devs, now, 0);
    var gss :- ConstructGss(c, cfg.rateInterval, empty, devs, now, 0);
    BuiltIsInstall(c, leos.0, gss);
    Ok((Installation(leos.0, gss, Install(c).geos), leos.1))
  }

  function NextGeos(inst: Installation): (g: seq<int>)
    ensures |g| == |inst.leos| && forall i :: 0 <= i < |g| ==> g[i] == inst.leos[i].nextGeo
  {
    seq(|inst.leos|, i requires 0 <= i < |inst.leos| => inst.leos[i].nextGeo)
  }

  function WithNextGeos(inst: Installation, g: seq<int>): (r: Installation)
    requires |g| == |inst.leos|
    ensures |r.leos| == |inst.leos| && r.gss == inst.gss && r.geos == inst.geos
    ensures forall i :: 0 <= i < |g| ==> r.leos[i] == inst.leos[i].(nextGeo := g[i])
  {
    inst.(leos := seq(|g|, i requires 0 <= i < |g| => inst.leos[i].(nextGeo := g[i])))
  }

  /** When the next snapshot load is planned, if at all. */
  function NextUpdate(t: int, interval: nat, end: int, forceStatic: bool): (r: Option<int>)
    ensures r.Some? <==> !forceStatic && t + interval < end
    ensures r.Some? ==> r.value == t + interval
  {
    if forceStatic then None
    else if t + interval < end then Some(t + interval) else None
  }

  /** A snapshot file: `None` when it does not exist, else its lines. */
  type SnapshotFile = Option<seq<seq<int>>>

  /** `UpdateForwardingState(t)` of the current helper on an existing file. */
  function ApplyForwarding(c: Counts, net: Net, inst: Installation, lines: seq<seq<int>>): (r: Outcome<Installation>)
    requires |net| >= c.LeoGs() && Placed(c, inst) && Shaped(Tables(inst), c.LeoGs())
    ensures r.Ok? <==> forall k :: 0 <= k < |lines| ==> LineValid(c, net, lines[k])
    ensures r.Ok? ==> Placed(c, r.value) && Shaped(Tables(r.value), c.LeoGs())
    ensures r.Ok? ==> Ok(Tables(r.value)) == LoadForwarding(Current, c, net, Tables(inst), lines)
    ensures r.Ok? ==> NextGeos(r.value) == NextGeos(inst)
  {
    var tables :- LoadForwarding(Current, c, net, Tables(inst), lines);
    TablesWithTables(inst, tables);
    Ok(WithTables(inst, tables))
  }

  /** `UpdateIllsState(t)` of the current helper on an existing file. */
  function ApplyIlls(c: Counts, inst: Installation, lines: seq<seq<int>>): (r: Outcome<Installation>)
    requires Placed(c, inst)
    ensures r.Ok? <==> forall k :: 0 <= k < |lines| ==> IllLineValid(c, lines[k])
    ensures r.Ok? ==> Placed(c, r.value) && Tables(r.value) == Tables(inst)
    ensures r.Ok? ==> Ok(NextGeos(r.value)) == LoadIlls(Current, c, NextGeos(inst), lines)
  {
    var geos :- LoadIlls(Current, c, NextGeos(inst), lines);
    var done := WithNextGeos(inst, geos);
    assert Tables(done) == Tables(inst);
    assert NextGeos(done) == geos;
    Ok(done)
  }

  /** `UpdateState(t)` of the current helper: load the forwarding file, then
      the ILL file, then plan the next load. */
  function UpdateState(c: Counts, net: Net, inst: Installation, t: int, fstate: SnapshotFile, ills: SnapshotFile,
                       interval: nat, end: int, forceStatic: bool): (r: Outcome<(Installation, Option<int>)>)
    requires |net| >= c.LeoGs() && Placed(c, inst) && Shaped(Tables(inst), c.LeoGs())
    ensures r.Ok? <==> fstate.Some? && ills.Some?
                       && (forall k :: 0 <= k < |fstate.value| ==> LineValid(c, net, fstate.value[k]))
                       && (forall k :: 0 <= k < |ills.value| ==> IllLineValid(c, ills.value[k]))
    ensures r.Ok? ==> Placed(c, r.value.0) && Shaped(Tables(r.value.0), c.LeoGs())
    ensures r.Ok? ==> Ok(Tables(r.value.0)) == LoadForwarding(Current, c, net, Tables(inst), fstate.value)
    ensures r.Ok? ==> Ok(NextGeos(r.value.0)) == LoadIlls(Current, c, NextGeos(inst), ills.value)
    ensures r.Ok? ==> r.value.1 == NextUpdate(t, interval, end, forceStatic)
  {
    if fstate.None? then Abort("File does not exist.")
    else
      var loaded :- ApplyForwarding(c, net, inst, fstate.value);
      if ills.None? then Abort("File does not exist.")
      else
        var done :- ApplyIlls(c, loaded, ills.value);
        Ok((done, NextUpdate(t, interval, end, forceStatic)))
  }

  /** After a load, every satellite's relay is either still unset or a GEO
      relay's node id. */
  lemma LoadedRelaysAreGeo(c: Counts, nextGeo: seq<int>, lines: seq<seq<int>>)
    requires |nextGeo| == c.sats
    requires forall s :: 0 <= s < c.sats ==> nextGeo[s] == NO_GEO || c.IsGeo(nextGeo[s])
    requires LoadIlls(Current, c, nextGeo, lines).Ok?
    ensures forall s :: 0 <= s < c.sats ==>
              var g := LoadIlls(Current, c, nextGeo, lines).value[s];
              g == NO_GEO || c.IsGeo(g)
  {
    var r := LoadIlls(Current, c, nextGeo, lines).value;
    forall s | 0 <= s < c.sats ensures r[s] == NO_GEO || c.IsGeo(r[s]) {
      if r[s] != nextGeo[s] {
        var k :| 0 <= k < |lines| && lines[k][0] == s && r[s] == GeoNode(Current, c, lines[k][1]);
        assert IllLineValid(c, lines[k]);
      }
    }
  }

  /** The times at which the snapshot is loaded, starting at `t`. */
  function LoadTimes(t: int, interval: nat, end: int, forceStatic: bool): (ts: seq<int>)
    requires interval > 0
    decreases end - t
    ensures |ts| > 0 && ts[0] == t
  {
    match NextUpdate(t, interval, end, forceStatic)
    case None => [t]
    case Some(n) => [t] + LoadTimes(n, interval, end, forceStatic)
  }

  /** A dynamic run loads the snapshots of times `t, t + I, t + 2I, ...` that
      are before the end, which are the files the generator writes for a run
      starting at `t`. */
  lemma {:induction false} LoadTimesAreMultiples(t: int, interval: nat, end: int)
    requires interval > 0 && t < end
    ensures var ts := LoadTimes(t, interval, end, false);
            (forall k :: 0 <= k < |ts| ==> ts[k] == t + k * interval && ts[k] < end)
            && end <= t + |ts| * interval
    decreases end - t
  {
    var ts := LoadTimes(t, interval, end, false);
    if t + interval < end {
      var rest := LoadTimes(t + interval, interval, end, false);
      LoadTimesAreMultiples(t + interval, interval, end);
      assert ts == [t] + rest;
      forall k | 0 <= k < |ts| ensures ts[k] == t + k * interval && ts[k] < end {
        if k > 0 {
          assert ts[k] == rest[k - 1];
          assert (k - 1) * interval + interval == k * interval;
        }
      }
      assert (1 + |rest|) * interval == interval + |rest| * interval;
    }
  }

  /** A static run loads the first snapshot only. */
  lemma StaticLoadsOnce(t: int, interval: nat, end: int)
    requires interval > 0
    ensures LoadTimes(t, interval, end, true) == [t]
  {
  }

  // ---------------------------------------------------------------------------
  // The older helper

  /** The older helper's constructor: every combined arbiter it creates aborts
      because the class has not been initialised yet; with no satellites and no
      ground stations it goes on to load the forwarding file of time 0. */
  function OlderConstruct(c: Counts, net: Net, fstate: SnapshotFile): (r: Outcome<seq<Table>>)
    requires |net| >= c.LeoGs()
    ensures c.LeoGs() > 0 ==> r == Abort("Initialize must before")
    ensures r.Ok? ==> r.value == [] && fstate == Some([])
  {
    if c.LeoGs() > 0 then Abort("Initialize must before")
    else if fstate.None? then Abort("File does not exist.")
    else
      var t :- LoadForwarding(Older, c, net, InitialTables(0), fstate.value);
      assert |fstate.value| > 0 ==> !LineValid(c, net, fstate.value[0]);
      Ok(t)
  }
}
