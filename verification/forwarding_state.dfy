/** Loading the forwarding state and the inter-layer links (ILL) from the
    generated snapshot files, for both helper revisions.

    An `fstate` line holds eleven comma-separated integers: current node, target
    node, then three `(next hop, my interface, next interface)` triples, with
    interfaces counted without the loopback; all three -1 is a drop. Each line
    is validated against the topology and replaces the candidate list of
    `(current, target)`. An `ills` line holds a satellite and a GEO index and
    sets that satellite's GEO relay.

    Lines reach the model already split and converted to integers; splitting
    with the wrong field count aborts, and the conversion of text to numbers is
    not modelled. `parse_positive_int64` fields must not be negative.

    The two revisions differ in what they store: the current helper stores the
    next hop's interface plus one as the remote interface, the older one the
    next hop's node id plus one; and the current one maps GEO index `g` to node
    `S + G + g`, the older one to `S + numGeo + g`.
 */
module ForwardingState {
  import opened Outcomes
  import opened Topology

  datatype Revision = Current | Older

  /** The devices of every node by interface index (0 is the loopback). */
  type Net = seq<seq<Device>>

  const FSTATE_FIELDS: nat := 11
  const ILL_FIELDS: nat := 2
  const DROP: int := -1

  /** Interfaces a node may name, counted without the loopback: a satellite's
      last interface is the ILL, which a forwarding entry may not use. */
  function Reserved(c: Counts, node: int): nat {
    if node < c.sats then 2 else 1
  }

  predicate InterfaceExists(c: Counts, net: Net, node: int, i: int)
    requires 0 <= node < |net|
  {
    0 <= i && i + Reserved(c, node) < |net[node]|
  }

  /** The conditions the loader imposes on one triple of a line, stated once as
      a whole. */
  predicate TripleValid(c: Counts, net: Net, cur: int, nx: int, mi: int, ni: int)
    requires |net| >= c.LeoGs()
  {
    0 <= cur < c.LeoGs() && -1 <= nx < c.LeoGs()
    && ((nx == DROP && mi == DROP && ni == DROP) || (nx != DROP && mi != DROP && ni != DROP))
    && (mi == DROP || InterfaceExists(c, net, cur, mi))
    && (ni == DROP || InterfaceExists(c, net, nx, ni))
    && (nx != DROP ==>
          var here := net[cur][1 + mi];
          var there := net[nx][1 + ni];
          (here.Gsl? && there.Gsl?)
          || (here.Isl? && there.Isl? && here.peerNode == nx && here.peerIf == 1 + ni))
  }

  /** The stored candidate of a validated triple. */
  function StoreTriple(rev: Revision, nx: int, mi: int, ni: int): (h: Hop)
    ensures h.node == nx && h.localIf == mi + 1
    ensures rev == Current ==> h.remoteIf == ni + 1
  {
    match rev
    case Current => Hop(nx, mi + 1, ni + 1)
    case Older => Hop(nx, mi + 1, nx + 1)
  }

  /** The checks of the loader, in its order, then the stored candidate. */
  function CheckTriple(rev: Revision, c: Counts, net: Net, cur: int, nx: int, mi: int, ni: int): (r: Outcome<Hop>)
    requires |net| >= c.LeoGs()
    ensures r.Ok? <==> TripleValid(c, net, cur, nx, mi, ni)
    ensures r.Ok? ==> r.value == StoreTriple(rev, nx, mi, ni)
  {
    if !(0 <= cur < c.LeoGs()) then Abort("Invalid current node id.")
    else if !(-1 <= nx < c.LeoGs()) then Abort("Invalid next hop node id.")
    else if !(nx == DROP && mi == DROP && ni == DROP) && !(nx != DROP && mi != DROP && ni != DROP) then
      Abort("All three must be -1 for it to signify a drop.")
    else if !(mi == DROP || InterfaceExists(c, net, cur, mi)) then Abort("Invalid current interface")
    else if !(ni == DROP || InterfaceExists(c, net, nx, ni)) then Abort("Invalid next hop interface")
    else if nx == DROP then Ok(StoreTriple(rev, nx, mi, ni))
    else
      var here := net[cur][1 + mi];
      var there := net[nx][1 + ni];
      if !here.Gsl? && !here.Isl? then Abort("Only GSL and ISL network devices are supported")
      else if here.Gsl? && !there.Gsl? then Abort("Destination interface must be attached to a GSL network device")
      else if here.Isl? && !there.Isl? then Abort("Destination interface must be an ISL network device")
      else if here.Isl? && here.peerNode != nx then Abort("Next hop node id across does not match")
      else if here.Isl? && here.peerIf != 1 + ni then Abort("Next hop interface id across does not match")
      else Ok(StoreTriple(rev, nx, mi, ni))
  }

  /** One parsed `fstate` line. */
  datatype Entry = Entry(cur: int, target: int, cands: seq<Hop>)

  predicate LineValid(c: Counts, net: Net, fields: seq<int>)
    requires |net| >= c.LeoGs()
  {
    |fields| == FSTATE_FIELDS && fields[0] >= 0 && fields[1] >= 0
    && 0 <= fields[1] < c.LeoGs()
    && TripleValid(c, net, fields[0], fields[2], fields[3], fields[4])
    && TripleValid(c, net, fields[0], fields[5], fields[6], fields[7])
    && TripleValid(c, net, fields[0], fields[8], fields[9], fields[10])
  }

  function ParseLine(rev: Revision, c: Counts, net: Net, fields: seq<int>): (r: Outcome<Entry>)
    requires |net| >= c.LeoGs()
    ensures r.Ok? <==> LineValid(c, net, fields)
    ensures r.Ok? ==> r.value.cur == fields[0] && r.value.target == fields[1]
                      && 0 <= r.value.cur < c.LeoGs() && 0 <= r.value.target < c.LeoGs()
                      && r.value.cands == [StoreTriple(rev, fields[2], fields[3], fields[4]),
                                           StoreTriple(rev, fields[5], fields[6], fields[7]),
                                           StoreTriple(rev, fields[8], fields[9], fields[10])]
  {
    if |fields| != FSTATE_FIELDS then Abort("wrong number of fields")
    else if fields[0] < 0 || fields[1] < 0 then Abort("negative value")
    else if !(0 <= fields[1] < c.LeoGs()) then Abort("Invalid target node id.")
    else
      var h0 :- CheckTriple(rev, c, net, fields[0], fields[2], fields[3], fields[4]);
      var h1 :- CheckTriple(rev, c, net, fields[0], fields[5], fields[6], fields[7]);
      var h2 :- CheckTriple(rev, c, net, fields[0], fields[8], fields[9], fields[10]);
      Ok(Entry(fields[0], fields[1], [h0, h1, h2]))
  }

  /** Every node has a list for every target, each with three candidates. */
  predicate Shaped(tables: seq<Table>, n: nat) {
    |tables| == n
    && forall i :: 0 <= i < n ==> |tables[i]| == n && forall j :: 0 <= j < n ==> |tables[i][j]| == CANDIDATES
  }

  /** `InitialEmptyForwardingState`: every candidate is the placeholder. */
  function InitialTables(n: nat): (t: seq<Table>)
    ensures Shaped(t, n)
    ensures forall i, j, k :: 0 <= i < n && 0 <= j < n && 0 <= k < CANDIDATES ==> t[i][j][k] == UNSET_HOP
  {
    seq(n, i => seq(n, j => [UNSET_HOP, UNSET_HOP, UNSET_HOP]))
  }

  /** The candidate list of `(i, j)` after `lines`, by a reference definition:
      the list of the last line naming the pair, else `dflt`. */
  function LastWrite(lines: seq<Entry>, i: int, j: int, dflt: seq<Hop>): seq<Hop> {
    if |lines| == 0 then dflt
    else
      var e := lines[|lines| - 1];
      if e.cur == i && e.target == j then e.cands else LastWrite(lines[..|lines| - 1], i, j, dflt)
  }

  /** Applies one entry, keeping the shape. */
  function Store(tables: seq<Table>, n: nat, e: Entry): (t: seq<Table>)
    requires Shaped(tables, n) && 0 <= e.cur < n && 0 <= e.target < n && |e.cands| == CANDIDATES
    ensures Shaped(t, n)
    ensures forall i, j :: 0 <= i < n && 0 <= j < n ==>
              t[i][j] == if i == e.cur && j == e.target then e.cands else tables[i][j]
  {
    tables[e.cur := tables[e.cur][e.target := e.cands]]
  }

  /** Reads the `fstate` lines in order; the first invalid line aborts the run. */
  function ParseLines(rev: Revision, c: Counts, net: Net, lines: seq<seq<int>>): (r: Outcome<seq<Entry>>)
    requires |net| >= c.LeoGs()
    ensures r.Ok? <==> forall k :: 0 <= k < |lines| ==> LineValid(c, net, lines[k])
    ensures r.Ok? ==> |r.value| == |lines|
                      && forall k :: 0 <= k < |lines| ==> Ok(r.value[k]) == ParseLine(rev, c, net, lines[k])
  {
    if |lines| == 0 then Ok([])
    else
      var front :- ParseLines(rev, c, net, lines[..|lines| - 1]);
      var last :- ParseLine(rev, c, net, lines[|lines| - 1]);
      assert forall k :: 0 <= k < |lines| - 1 ==> lines[..|lines| - 1][k] == lines[k];
      Ok(front + [last])
  }

  predicate EntriesFit(entries: seq<Entry>, n: nat) {
    forall k :: 0 <= k < |entries| ==>
      0 <= entries[k].cur < n && 0 <= entries[k].target < n && |entries[k].cands| == CANDIDATES
  }

  function StoreAll(tables: seq<Table>, n: nat, entries: seq<Entry>): (t: seq<Table>)
    requires Shaped(tables, n) && EntriesFit(entries, n)
    ensures Shaped(t, n)
  {
    if |entries| == 0 then tables
    else Store(StoreAll(tables, n, entries[..|entries| - 1]), n, entries[|entries| - 1])
  }

  /** After storing the entries, every pair holds the list of the last entry
      naming it, and every other pair is unchanged. */
  lemma {:induction false} StoreAllIsLastWrite(tables: seq<Table>, n: nat, entries: seq<Entry>)
    requires Shaped(tables, n) && EntriesFit(entries, n)
    ensures forall i, j :: 0 <= i < n && 0 <= j < n ==>
              StoreAll(tables, n, entries)[i][j] == LastWrite(entries, i, j, tables[i][j])
  {
    if |entries| > 0 {
      StoreAllIsLastWrite(tables, n, entries[..|entries| - 1]);
    }
  }

  lemma {:induction false} LastWriteTwice(entries: seq<Entry>, i: int, j: int, dflt: seq<Hop>)
    ensures LastWrite(entries, i, j, LastWrite(entries, i, j, dflt)) == LastWrite(entries, i, j, dflt)
  {
    if |entries| > 0 {
      var e := entries[|entries| - 1];
      if !(e.cur == i && e.target == j) {
        LastWriteTwice(entries[..|entries| - 1], i, j, dflt);
      }
    }
  }

  /** Loading the same snapshot twice leaves the state of loading it once. */
  lemma StoreAllIdempotent(tables: seq<Table>, n: nat, entries: seq<Entry>)
    requires Shaped(tables, n) && EntriesFit(entries, n)
    ensures StoreAll(StoreAll(tables, n, entries), n, entries) == StoreAll(tables, n, entries)
  {
    var once := StoreAll(tables, n, entries);
    var twice := StoreAll(once, n, entries);
    StoreAllIsLastWrite(tables, n, entries);
    StoreAllIsLastWrite(once, n, entries);
    forall i, j | 0 <= i < n && 0 <= j < n ensures twice[i][j] == once[i][j] {
      LastWriteTwice(entries, i, j, tables[i][j]);
    }
    forall i | 0 <= i < n ensures twice[i] == once[i] {
    }
  }

  /** `UpdateForwardingState`: parse every line, then store them in order.
      (In the source a line is stored as soon as it is validated; since any
      invalid line aborts the run, the stored state of a successful load is the
      same.) */
  function LoadForwarding(rev: Revision, c: Counts, net: Net, tables: seq<Table>, lines: seq<seq<int>>): (r: Outcome<seq<Table>>)
    requires |net| >= c.LeoGs() && Shaped(tables, c.LeoGs())
    ensures r.Ok? <==> forall k :: 0 <= k < |lines| ==> LineValid(c, net, lines[k])
    ensures r.Ok? ==> Shaped(r.value, c.LeoGs())
    ensures r.Ok? ==> forall i, j :: 0 <= i < c.LeoGs() && 0 <= j < c.LeoGs() && !NamesPair(lines, i, j) ==>
                        r.value[i][j] == tables[i][j]
    ensures r.Ok? ==> forall k :: 0 <= k < |lines| && LastToName(lines, k) ==>
                        r.value[lines[k][0]][lines[k][1]]
                        == [StoreTriple(rev, lines[k][2], lines[k][3], lines[k][4]),
                            StoreTriple(rev, lines[k][5], lines[k][6], lines[k][7]),
                            StoreTriple(rev, lines[k][8], lines[k][9], lines[k][10])]
  {
    var entries :- ParseLines(rev, c, net, lines);
    var t := StoreAll(tables, c.LeoGs(), entries);
    StoreAllIsLastWrite(tables, c.LeoGs(), entries);
    forall i, j | 0 <= i < c.LeoGs() && 0 <= j < c.LeoGs() && !NamesPair(lines, i, j)
      ensures LastWrite(entries, i, j, tables[i][j]) == tables[i][j]
    {
      NotNamedKeeps(entries, lines, i, j, tables[i][j]);
    }
    forall k | 0 <= k < |lines| && LastToName(lines, k)
      ensures t[lines[k][0]][lines[k][1]] == entries[k].cands
    {
      assert ParseLine(rev, c, net, lines[k]) == Ok(entries[k]);
      LastNamingWrites(entries, lines, k, tables[lines[k][0]][lines[k][1]]);
    }
    Ok(t)
  }

  /** Some line's first two fields are `i` and `j`. */
  predicate NamesPair(lines: seq<seq<int>>, i: int, j: int) {
    exists k :: 0 <= k < |lines| && |lines[k]| >= 2 && lines[k][0] == i && lines[k][1] == j
  }

  /** Line `k` names a pair that no later line names again. */
  predicate LastToName(lines: seq<seq<int>>, k: int) {
    0 <= k < |lines| && |lines[k]| >= 2
    && forall m :: k < m < |lines| && |lines[m]| >= 2 ==> !(lines[m][0] == lines[k][0] && lines[m][1] == lines[k][1])
  }

  /** The pair of the last line naming it holds that line's list. */
  lemma {:induction false} LastNamingWrites(entries: seq<Entry>, lines: seq<seq<int>>, k: int, dflt: seq<Hop>)
    requires |entries| == |lines|
    requires forall m :: 0 <= m < |lines| ==> |lines[m]| >= 2 && entries[m].cur == lines[m][0] && entries[m].target == lines[m][1]
    requires LastToName(lines, k)
    ensures LastWrite(entries, lines[k][0], lines[k][1], dflt) == entries[k].cands
  {
    var n := |entries| - 1;
    if k < n {
      assert !(lines[n][0] == lines[k][0] && lines[n][1] == lines[k][1]);
      var lines' := lines[..n];
      assert forall m :: 0 <= m < |lines'| ==> lines'[m] == lines[m];
      assert LastToName(lines', k);
      LastNamingWrites(entries[..n], lines', k, dflt);
    }
  }

  lemma {:induction false} NotNamedKeeps(entries: seq<Entry>, lines: seq<seq<int>>, i: int, j: int, dflt: seq<Hop>)
    requires |entries| == |lines|
    requires forall k :: 0 <= k < |lines| ==> |lines[k]| >= 2 && entries[k].cur == lines[k][0] && entries[k].target == lines[k][1]
    requires !NamesPair(lines, i, j)
    ensures LastWrite(entries, i, j, dflt) == dflt
  {
    if |entries| > 0 {
      var k := |entries| - 1;
      assert !(lines[k][0] == i && lines[k][1] == j);
      var lines' := lines[..k];
      assert forall m :: 0 <= m < |lines'| ==> lines'[m] == lines[m];
      NotNamedKeeps(entries[..k], lines', i, j, dflt);
    }
  }

  // ---------------------------------------------------------------------------
  // Inter-layer links

  /** The node id of GEO index `geo`. */
  function GeoNode(rev: Revision, c: Counts, geo: int): int {
    match rev
    case Current => geo + c.sats + c.gss
    case Older => geo + c.sats + c.geos
  }

  predicate IllLineValid(c: Counts, fields: seq<int>) {
    |fields| == ILL_FIELDS && 0 <= fields[0] < c.sats && 0 <= fields[1] < c.geos
  }

  /** One `ills` line: satellite `fields[0]` is bound to GEO index `fields[1]`. */
  function ApplyIllLine(rev: Revision, c: Counts, nextGeo: seq<int>, fields: seq<int>): (r: Outcome<seq<int>>)
    requires |nextGeo| == c.sats
    ensures r.Ok? <==> IllLineValid(c, fields)
    ensures r.Ok? ==> r.value == nextGeo[fields[0] := GeoNode(rev, c, fields[1])]
  {
    if |fields| != ILL_FIELDS then Abort("wrong number of fields")
    else if fields[0] < 0 || fields[1] < 0 then Abort("negative value")
    else if !(0 <= fields[0] < c.sats) then Abort("invalid satellite node id of ill")
    else if !(0 <= fields[1] < c.geos) then Abort("invalid GEOsatellite node id of ill")
    else Ok(nextGeo[fields[0] := GeoNode(rev, c, fields[1])])
  }

  function LoadIlls(rev: Revision, c: Counts, nextGeo: seq<int>, lines: seq<seq<int>>): (r: Outcome<seq<int>>)
    requires |nextGeo| == c.sats
    ensures r.Ok? <==> forall k :: 0 <= k < |lines| ==> IllLineValid(c, lines[k])
    ensures r.Ok? ==> |r.value| == c.sats
    ensures r.Ok? ==> forall s :: 0 <= s < c.sats && r.value[s] != nextGeo[s] ==>
                        exists k :: 0 <= k < |lines| && lines[k][0] == s && r.value[s] == GeoNode(rev, c, lines[k][1])
    ensures r.Ok? ==> forall k :: 0 <= k < |lines| && LastToBind(lines, k) ==>
                        r.value[lines[k][0]] == GeoNode(rev, c, lines[k][1])
    ensures r.Ok? ==> forall s :: 0 <= s < c.sats && !BindsSatellite(lines, s) ==> r.value[s] == nextGeo[s]
  {
    if |lines| == 0 then Ok(nextGeo)
    else
      var n := |lines| - 1;
      var front :- LoadIlls(rev, c, nextGeo, lines[..n]);
      var r :- ApplyIllLine(rev, c, front, lines[n]);
      IllStep(rev, c, nextGeo, front, lines);
      Ok(r)
  }

  /** `r` is what loading the valid `lines` over `nextGeo` leaves: every changed
      satellite is bound by some line, the last line binding a satellite wins,
      and an unbound satellite keeps its relay. */
  predicate IllsLoaded(rev: Revision, c: Counts, nextGeo: seq<int>, lines: seq<seq<int>>, r: seq<int>)
    requires |r| == |nextGeo| == c.sats
  {
    (forall s :: 0 <= s < c.sats && r[s] != nextGeo[s] ==>
       exists k :: 0 <= k < |lines| && IllLineValid(c, lines[k]) && lines[k][0] == s && r[s] == GeoNode(rev, c, lines[k][1]))
    && (forall k :: 0 <= k < |lines| && IllLineValid(c, lines[k]) && LastToBind(lines, k) ==>
          r[lines[k][0]] == GeoNode(rev, c, lines[k][1]))
    && (forall s :: 0 <= s < c.sats && !BindsSatellite(lines, s) ==> r[s] == nextGeo[s])
  }

  /** The last `ills` line applied on top of the bindings of the lines before it. */
  lemma IllStep(rev: Revision, c: Counts, nextGeo: seq<int>, front: seq<int>, lines: seq<seq<int>>)
    requires |lines| > 0 && |front| == |nextGeo| == c.sats
    requires forall k :: 0 <= k < |lines| ==> IllLineValid(c, lines[k])
    requires IllLineValid(c, lines[|lines| - 1])
    requires IllsLoaded(rev, c, nextGeo, lines[..|lines| - 1], front)
    ensures var last := lines[|lines| - 1];
            IllsLoaded(rev, c, nextGeo, lines, front[last[0] := GeoNode(rev, c, last[1])])
  {
    var n := |lines| - 1;
    var pre := lines[..n];
    var r := front[lines[n][0] := GeoNode(rev, c, lines[n][1])];
    forall s | 0 <= s < c.sats && r[s] != nextGeo[s]
      ensures exists k :: 0 <= k < |lines| && lines[k][0] == s && r[s] == GeoNode(rev, c, lines[k][1])
    {
      if s != lines[n][0] {
        var k :| 0 <= k < n && pre[k][0] == s && front[s] == GeoNode(rev, c, pre[k][1]);
        assert pre[k] == lines[k];
      }
    }
    forall k | 0 <= k < |lines| && LastToBind(lines, k)
      ensures r[lines[k][0]] == GeoNode(rev, c, lines[k][1])
    {
      if k < n {
        assert pre[k] == lines[k];
        assert lines[k][0] != lines[n][0];
        forall m | k < m < |pre| && |pre[m]| >= 1 ensures pre[m][0] != pre[k][0] {
          assert pre[m] == lines[m];
        }
        assert LastToBind(pre, k);
      }
    }
    forall s | 0 <= s < c.sats && !BindsSatellite(lines, s)
      ensures r[s] == nextGeo[s]
    {
      assert s != lines[n][0];
    }
  }

  /** Some `ills` line binds satellite `s`. */
  predicate BindsSatellite(lines: seq<seq<int>>, s: int) {
    exists k :: 0 <= k < |lines| && |lines[k]| >= 1 && lines[k][0] == s
  }

  /** Line `k` binds a satellite that no later line binds again. */
  predicate LastToBind(lines: seq<seq<int>>, k: int) {
    0 <= k < |lines| && |lines[k]| >= 1
    && forall m :: k < m < |lines| && |lines[m]| >= 1 ==> lines[m][0] != lines[k][0]
  }

  /** A satellite bound by some line is bound by a last one. */
  lemma {:induction false} SomeLastBinds(lines: seq<seq<int>>, s: int)
    requires BindsSatellite(lines, s)
    ensures exists k :: LastToBind(lines, k) && lines[k][0] == s
    decreases |lines|
  {
    var n := |lines| - 1;
    if |lines[n]| >= 1 && lines[n][0] == s {
      assert LastToBind(lines, n);
    } else {
      var k :| 0 <= k < |lines| && |lines[k]| >= 1 && lines[k][0] == s;
      assert k < n && lines[..n][k] == lines[k];
      SomeLastBinds(lines[..n], s);
      var k' :| LastToBind(lines[..n], k') && lines[..n][k'][0] == s;
      assert lines[..n][k'] == lines[k'];
      assert LastToBind(lines, k');
    }
  }

  /** Loading the same `ills` file twice leaves the bindings of loading it once. */
  lemma LoadIllsIdempotent(rev: Revision, c: Counts, nextGeo: seq<int>, lines: seq<seq<int>>)
    requires |nextGeo| == c.sats
    requires LoadIlls(rev, c, nextGeo, lines).Ok?
    ensures LoadIlls(rev, c, LoadIlls(rev, c, nextGeo, lines).value, lines) == LoadIlls(rev, c, nextGeo, lines)
  {
    var once := LoadIlls(rev, c, nextGeo, lines).value;
    assert LoadIlls(rev, c, once, lines).Ok?;
    var twice := LoadIlls(rev, c, once, lines).value;
    forall s | 0 <= s < c.sats ensures twice[s] == once[s] {
      if BindsSatellite(lines, s) {
        SomeLastBinds(lines, s);
      }
    }
    assert twice == once;
  }

  /** The current revision binds every listed satellite to a GEO relay. */
  lemma CurrentBindsToGeo(c: Counts, nextGeo: seq<int>, fields: seq<int>)
    requires |nextGeo| == c.sats && IllLineValid(c, fields)
    ensures c.IsGeo(ApplyIllLine(Current, c, nextGeo, fields).value[fields[0]])
  {
  }

  /** The older revision offsets by the GEO count instead of the ground-station
      count: with 2 satellites, 3 ground stations and one GEO relay (node 5),
      GEO index 0 is mapped to node 3, a ground station. */
  lemma OlderBindsToGroundStation()
    ensures var c := Counts(2, 3, 1);
            var r := ApplyIllLine(Older, c, [-2, -2], [0, 0]);
            r.Ok? && r.value[0] == 3 && c.IsGs(3) && !c.IsGeo(3)
            && ApplyIllLine(Current, c, [-2, -2], [0, 0]).value[0] == 5
  {
  }

  /** The two revisions agree exactly when there are as many ground stations
      as GEO relays. */
  lemma RevisionsAgreeIff(c: Counts, geo: int)
    ensures GeoNode(Older, c, geo) == GeoNode(Current, c, geo) <==> c.gss == c.geos
  {
  }

  /** The current revision stores the next hop's interface; the older one stores
      the next hop's id in its place: the triple `(7, 0, 2)` is stored with
      remote interface 8 instead of 3. */
  lemma OlderStoresNodeAsInterface()
    ensures StoreTriple(Older, 7, 0, 2) == Hop(7, 1, 8)
    ensures StoreTriple(Current, 7, 0, 2) == Hop(7, 1, 3)
  {
  }

  /** The current revision's stored candidate gives back the file's triple. */
  lemma StoredTripleRoundTrip(nx: int, mi: int, ni: int)
    ensures var h := StoreTriple(Current, nx, mi, ni);
            (h.node, h.localIf - 1, h.remoteIf - 1) == (nx, mi, ni)
  {
  }
}
