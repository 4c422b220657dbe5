/** The offline forwarding-state generator (`fstate_<t>.txt`), without its
    floating-point geometry: the shortest-path distances over the ISL graph,
    the ISL edge lengths and the GSL distances are inputs, as whole metres or
    unreachable (`Inf`).

    Satellite to ground station: among the satellites in range of the
    destination ground station that are reachable, the one with the least
    `(ISL distance + GSL distance, satellite id)` is the exit satellite. A
    satellite other than the exit lists its (up to) three best ISL neighbours,
    ordered by `(edge length + distance from the neighbour to the exit, id,
    interfaces)`; the exit satellite lists the ground station itself. Ground
    station to ground station: the (up to) three best satellites in range,
    ordered by `(GSL distance + that satellite's distance to the destination,
    id)`. Unused slots are drops `(-1, -1, -1)`.

    Candidates are sorted as Python sorts tuples; since equal tuples are
    identical, any sorting algorithm gives the same list, and the model uses
    insertion sort.
 */
module FstateGen {
  import opened Outcomes

  datatype Dist = Fin(m: nat) | Inf

  predicate DistBefore(a: Dist, b: Dist) {
    (a.Fin? && b.Inf?) || (a.Fin? && b.Fin? && a.m < b.m)
  }

  /** `edge + distance`, where an infinite distance stays infinite. */
  function AddLen(d: Dist, w: nat): Dist {
    match d
    case Fin(m) => Fin(m + w)
    case Inf => Inf
  }

  /** A sortable tuple `(distance, node, local interface, remote interface)`. */
  datatype Cand = Cand(dist: Dist, node: int, myIf: int, peerIf: int)

  /** Python's tuple order, strict. */
  predicate Before(a: Cand, b: Cand) {
    DistBefore(a.dist, b.dist)
    || (a.dist == b.dist && a.node < b.node)
    || (a.dist == b.dist && a.node == b.node && a.myIf < b.myIf)
    || (a.dist == b.dist && a.node == b.node && a.myIf == b.myIf && a.peerIf < b.peerIf)
  }

  predicate NotAfter(a: Cand, b: Cand) {
    !Before(b, a)
  }

  predicate Sorted(s: seq<Cand>) {
    forall i, j :: 0 <= i < j < |s| ==> NotAfter(s[i], s[j])
  }

  lemma ConsSorted(h: Cand, t: seq<Cand>)
    requires Sorted(t) && forall y :: y in t ==> NotAfter(h, y)
    ensures Sorted([h] + t)
  {
    var r := [h] + t;
    forall i, j | 0 <= i < j < |r| ensures NotAfter(r[i], r[j]) {
      if i > 0 {
        assert r[i] == t[i - 1] && r[j] == t[j - 1];
      } else {
        assert r[j] == t[j - 1];
      }
    }
  }

  /** A sorted list's head comes no later than any element, and its tail is
      sorted. */
  lemma SortedSplit(s: seq<Cand>)
    requires Sorted(s) && |s| > 0
    ensures forall y :: y in s ==> NotAfter(s[0], y)
    ensures Sorted(s[1..])
  {
    forall y | y in s ensures NotAfter(s[0], y) {
      var j :| 0 <= j < |s| && s[j] == y;
      assert j == 0 || NotAfter(s[0], s[j]);
    }
    var tail := s[1..];
    forall i, j | 0 <= i < j < |tail| ensures NotAfter(tail[i], tail[j]) {
      assert tail[i] == s[i + 1] && tail[j] == s[j + 1];
    }
  }

  /** The order is asymmetric. */
  lemma BeforeAsymmetric(a: Cand, b: Cand)
    requires Before(a, b)
    ensures NotAfter(a, b)
  {
  }

  function Insert(x: Cand, s: seq<Cand>): (r: seq<Cand>)
    requires Sorted(s)
    ensures Sorted(r)
    ensures multiset(r) == multiset(s) + multiset{x}
    ensures forall y :: y in r ==> y == x || y in s
  {
    if |s| == 0 then [x]
    else
      SortedSplit(s);
      if NotAfter(x, s[0]) then
        ConsSorted(x, s);
        [x] + s
      else
        var tail := s[1..];
        assert s == [s[0]] + tail;
        var rest := Insert(x, tail);
        BeforeAsymmetric(s[0], x);
        ConsSorted(s[0], rest);
        [s[0]] + rest
  }

  function Sort(s: seq<Cand>): (r: seq<Cand>)
    ensures Sorted(r)
    ensures multiset(r) == multiset(s)
  {
    if |s| == 0 then []
    else
      assert s == [s[0]] + s[1..];
      Insert(s[0], Sort(s[1..]))
  }

  function Min(a: nat, b: nat): nat {
    if a <= b then a else b
  }

  /** The first three of the sorted candidates (`sort()`, then slots 0..2). */
  function TopThree(s: seq<Cand>): (r: seq<Cand>)
    ensures |r| == Min(3, |s|)
  {
    var sorted := Sort(s);
    assert |sorted| == |multiset(sorted)| == |multiset(s)| == |s|;
    sorted[..Min(3, |s|)]
  }

  /** The top list only holds candidates of the input. */
  lemma TopThreeFromInput(s: seq<Cand>)
    ensures forall x :: x in TopThree(s) ==> x in s
  {
    TopThreeAreSmallest(s);
  }

  /** The chosen candidates are a sub-multiset of the input, in order, and
      none of the candidates left out (counting copies) comes before any
      chosen one. */
  lemma TopThreeAreSmallest(s: seq<Cand>)
    ensures Sorted(TopThree(s))
    ensures forall x :: x in TopThree(s) ==> x in s
    ensures forall i, x :: 0 <= i < |TopThree(s)| && x in s && x !in TopThree(s) ==> NotAfter(TopThree(s)[i], x)
    ensures multiset(TopThree(s)) <= multiset(s)
    ensures forall i, x :: 0 <= i < |TopThree(s)| && multiset(TopThree(s))[x] < multiset(s)[x] ==> NotAfter(TopThree(s)[i], x)
  {
    var sorted := Sort(s);
    var r := TopThree(s);
    assert |sorted| == |multiset(sorted)| == |multiset(s)| == |s|;
    assert r == sorted[..Min(3, |s|)];
    PrefixLeavesLater(sorted, Min(3, |s|));
    forall x | x in r ensures x in s {
      assert x in multiset(sorted);
    }
    forall i, x | 0 <= i < |r| && x in s && x !in r ensures NotAfter(r[i], x) {
      assert x in multiset(sorted);
      var j :| 0 <= j < |sorted| && sorted[j] == x;
      assert forall m :: 0 <= m < |r| ==> r[m] == sorted[m];
    }
  }

  /** A prefix of a sorted list is a sub-multiset of it, and every copy the
      prefix leaves out comes no earlier than any chosen element. */
  lemma PrefixLeavesLater(sorted: seq<Cand>, n: nat)
    requires Sorted(sorted) && n <= |sorted|
    ensures multiset(sorted[..n]) <= multiset(sorted)
    ensures forall i, x :: 0 <= i < n && multiset(sorted[..n])[x] < multiset(sorted)[x] ==> NotAfter(sorted[i], x)
  {
    var r := sorted[..n];
    var rest := sorted[n..];
    assert sorted == r + rest;
    assert multiset(sorted) == multiset(r) + multiset(rest);
    forall i, x | 0 <= i < n && multiset(r)[x] < multiset(sorted)[x] ensures NotAfter(sorted[i], x) {
      assert x in multiset(rest);
      var j :| 0 <= j < |rest| && rest[j] == x;
      assert sorted[n + j] == x;
    }
  }

  /** The least candidate of a non-empty list (`sorted(...)[0]`). */
  function Least(s: seq<Cand>): (c: Cand)
    requires |s| > 0
    ensures c in s
    ensures forall x :: x in s ==> NotAfter(c, x)
  {
    var sorted := Sort(s);
    assert |sorted| == |s|;
    assert sorted[0] in multiset(s);
    assert forall x :: x in s ==> x in multiset(sorted);
    sorted[0]
  }

  // ---------------------------------------------------------------------------
  // The snapshot the generator works on

  /** A satellite in range of a ground station: `(GSL distance, satellite)`. */
  datatype Visible = Visible(dist: nat, sat: int)

  /** An ISL neighbour with the edge length and the interface numbers on both
      ends (`sat_neighbor_to_if`). */
  datatype Neighbour = Neighbour(node: int, weight: nat, myIf: nat, peerIf: nat)

  datatype Snapshot = Snapshot(
    sats: nat,
    gss: nat,
    dist: seq<seq<Dist>>,            // shortest ISL-only distances, S x S
    neighbours: seq<seq<Neighbour>>, // per satellite
    inRange: seq<seq<Visible>>,      // per ground station
    islCount: seq<nat>,              // ISLs per satellite
    gslIfIdx: seq<nat>)              // per ground station, the GSL interface index on a satellite

  predicate WellFormed(s: Snapshot) {
    |s.dist| == s.sats && (forall i :: 0 <= i < s.sats ==> |s.dist[i]| == s.sats)
    && |s.neighbours| == s.sats
    && (forall i, k :: 0 <= i < s.sats && 0 <= k < |s.neighbours[i]| ==> 0 <= s.neighbours[i][k].node < s.sats)
    && |s.inRange| == s.gss
    && (forall g, k :: 0 <= g < s.gss && 0 <= k < |s.inRange[g]| ==> 0 <= s.inRange[g][k].sat < s.sats)
    && |s.islCount| == s.sats && |s.gslIfIdx| == s.gss
  }

  /** One forwarding triple as written to the file. */
  datatype Triple = Triple(next: int, myIf: int, nextIf: int)

  const DROP_TRIPLE: Triple := Triple(-1, -1, -1)

  /** A slot is a drop or a hop to a satellite or ground station with both
      interfaces given. */
  predicate SlotOk(s: Snapshot, t: Triple) {
    t == DROP_TRIPLE || (0 <= t.next < s.sats + s.gss && t.myIf >= 0 && t.nextIf >= 0)
  }

  /** Three slots: the chosen triples, then drops. */
  function Pad(ts: seq<Triple>): (r: seq<Triple>)
    requires |ts| <= 3
    ensures |r| == 3
    ensures forall k :: 0 <= k < 3 ==> r[k] == if k < |ts| then ts[k] else DROP_TRIPLE
  {
    seq(3, k requires 0 <= k < 3 => if k < |ts| then ts[k] else DROP_TRIPLE)
  }

  // ---------------------------------------------------------------------------
  // Satellite to ground station

  /** What a satellite in range offers toward the exit: nothing when it cannot
      be reached over ISLs. */
  function Offered(s: Snapshot, curr: nat, v: Visible): Option<Cand>
    requires WellFormed(s) && curr < s.sats && 0 <= v.sat < s.sats
  {
    match s.dist[curr][v.sat]
    case Inf => None
    case Fin(m) => Some(Cand(Fin(m + v.dist), v.sat, 0, 0))
  }

  predicate VisibleOf(s: Snapshot, vis: seq<Visible>) {
    forall k :: 0 <= k < |vis| ==> 0 <= vis[k].sat < s.sats
  }

  function Possibilities(s: Snapshot, curr: nat, vis: seq<Visible>): (r: seq<Cand>)
    requires WellFormed(s) && curr < s.sats && VisibleOf(s, vis)
    ensures forall c :: c in r <==> exists k :: 0 <= k < |vis| && Offered(s, curr, vis[k]) == Some(c)
  {
    if |vis| == 0 then []
    else
      var rest := Possibilities(s, curr, vis[1..]);
      assert forall k :: 1 <= k < |vis| ==> vis[1..][k - 1] == vis[k];
      match Offered(s, curr, vis[0])
      case None => rest
      case Some(c) => [c] + rest
  }

  /** The exit satellite toward ground station `gid`, with its total distance:
      the least offer, or `None` when no satellite in range is reachable. */
  function Exit(s: Snapshot, curr: nat, gid: nat): (r: Option<Cand>)
    requires WellFormed(s) && curr < s.sats && gid < s.gss
    ensures r.Some? ==> r.value.dist.Fin? && 0 <= r.value.node < s.sats
  {
    var poss := Possibilities(s, curr, s.inRange[gid]);
    if |poss| == 0 then None else Some(Least(poss))
  }

  /** The exit is missing exactly when no satellite in range is reachable, and
      otherwise is the least offer. */
  lemma ExitIsLeastOffer(s: Snapshot, curr: nat, gid: nat)
    requires WellFormed(s) && curr < s.sats && gid < s.gss
    ensures var r := Exit(s, curr, gid);
            var vis := s.inRange[gid];
            (r.None? <==> forall k :: 0 <= k < |vis| ==> Offered(s, curr, vis[k]).None?)
            && (r.Some? ==> exists k :: 0 <= k < |vis| && Offered(s, curr, vis[k]) == r)
            && (r.Some? ==> forall k :: 0 <= k < |vis| && Offered(s, curr, vis[k]).Some? ==>
                              NotAfter(r.value, Offered(s, curr, vis[k]).value))
  {
    var vis := s.inRange[gid];
    var poss := Possibilities(s, curr, vis);
    assert forall k :: 0 <= k < |vis| && Offered(s, curr, vis[k]).Some? ==> Offered(s, curr, vis[k]).value in poss;
  }

  /** The ISL neighbours of `curr` as candidates toward the exit `dst`. */
  function NeighbourCands(s: Snapshot, curr: nat, dst: nat): (r: seq<Cand>)
    requires WellFormed(s) && curr < s.sats && dst < s.sats
    ensures |r| == |s.neighbours[curr]|
    ensures forall k :: 0 <= k < |r| ==>
              var n := s.neighbours[curr][k];
              r[k] == Cand(AddLen(s.dist[n.node][dst], n.weight), n.node, n.myIf, n.peerIf)
  {
    var ns := s.neighbours[curr];
    seq(|ns|, k requires 0 <= k < |ns| =>
      Cand(AddLen(s.dist[ns[k].node][dst], ns[k].weight), ns[k].node, ns[k].myIf, ns[k].peerIf))
  }

  function AsTriples(cs: seq<Cand>): (r: seq<Triple>)
    ensures |r| == |cs|
    ensures forall k :: 0 <= k < |cs| ==> r[k] == Triple(cs[k].node, cs[k].myIf, cs[k].peerIf)
  {
    seq(|cs|, k requires 0 <= k < |cs| => Triple(cs[k].node, cs[k].myIf, cs[k].peerIf))
  }

  /** The three slots of `curr` toward ground station `gid`, and the distance
      later reused for ground station to ground station. */
  function SatToGs(s: Snapshot, curr: nat, gid: nat): (r: (seq<Triple>, Dist))
    requires WellFormed(s) && curr < s.sats && gid < s.gss
    ensures |r.0| == 3 && forall k :: 0 <= k < 3 ==> SlotOk(s, r.0[k])
    ensures Exit(s, curr, gid).None? ==> r.0 == [DROP_TRIPLE, DROP_TRIPLE, DROP_TRIPLE] && r.1 == Inf
    ensures Exit(s, curr, gid).Some? ==> r.1 == Exit(s, curr, gid).value.dist
    ensures Exit(s, curr, gid).Some? && Exit(s, curr, gid).value.node == curr ==>
              r.0 == [Triple(s.sats + gid, s.islCount[curr] + s.gslIfIdx[gid], 0), DROP_TRIPLE, DROP_TRIPLE]
    ensures Exit(s, curr, gid).Some? && Exit(s, curr, gid).value.node != curr ==>
              r.0 == Pad(AsTriples(TopThree(NeighbourCands(s, curr, Exit(s, curr, gid).value.node))))
  {
    match Exit(s, curr, gid)
    case None => (Pad([]), Inf)
    case Some(e) =>
      if e.node == curr then
        (Pad([Triple(s.sats + gid, s.islCount[curr] + s.gslIfIdx[gid], 0)]), e.dist)
      else
        var cands := NeighbourCands(s, curr, e.node);
        TopThreeFromInput(cands);
        assert forall c :: c in cands ==> 0 <= c.node < s.sats && c.myIf >= 0 && c.peerIf >= 0;
        (Pad(AsTriples(TopThree(cands))), e.dist)
  }

  /** A satellite's triples point at ISL neighbours (or the ground station
      itself), and never at a drop before a real slot. */
  lemma SatToGsSlots(s: Snapshot, curr: nat, gid: nat)
    requires WellFormed(s) && curr < s.sats && gid < s.gss
    ensures forall k :: 0 <= k < 3 ==>
              var t := SatToGs(s, curr, gid).0[k];
              t == DROP_TRIPLE
              || (t == Triple(s.sats + gid, s.islCount[curr] + s.gslIfIdx[gid], 0) && k == 0)
              || exists n :: n in s.neighbours[curr] && t == Triple(n.node, n.myIf, n.peerIf)
  {
    var e := Exit(s, curr, gid);
    if e.Some? && e.value.node != curr {
      var cands := NeighbourCands(s, curr, e.value.node);
      var top := TopThree(cands);
      TopThreeFromInput(cands);
      forall k | 0 <= k < |top|
        ensures exists n :: n in s.neighbours[curr] && AsTriples(top)[k] == Triple(n.node, n.myIf, n.peerIf)
      {
        assert top[k] in cands;
        var j :| 0 <= j < |cands| && cands[j] == top[k];
        assert s.neighbours[curr][j] in s.neighbours[curr];
      }
    }
  }

  // ---------------------------------------------------------------------------
  // Ground station to ground station

  /** What a satellite in range of the source offers toward the destination. */
  function GsOffered(s: Snapshot, dstGid: nat, a: Visible): Option<Cand>
    requires WellFormed(s) && dstGid < s.gss && 0 <= a.sat < s.sats
  {
    match Exit(s, a.sat, dstGid)
    case None => None
    case Some(e) => Some(Cand(Fin(a.dist + e.dist.m), a.sat, 0, 0))
  }

  /** The offer uses the distance the satellite rows computed. */
  lemma GsOfferUsesSatDistance(s: Snapshot, dstGid: nat, a: Visible)
    requires WellFormed(s) && dstGid < s.gss && 0 <= a.sat < s.sats
    ensures GsOffered(s, dstGid, a).None? <==> SatToGs(s, a.sat, dstGid).1 == Inf
    ensures GsOffered(s, dstGid, a).Some? ==> GsOffered(s, dstGid, a).value.dist == Fin(a.dist + SatToGs(s, a.sat, dstGid).1.m)
  {
    var e := Exit(s, a.sat, dstGid);
    var d := SatToGs(s, a.sat, dstGid).1;
    if e.Some? {
      assert d == e.value.dist;
    } else {
      assert d == Inf;
    }
  }

  /** The candidates of every satellite in range of the source. */
  function GsPossibilities(s: Snapshot, dstGid: nat, vis: seq<Visible>): (r: seq<Cand>)
    requires WellFormed(s) && dstGid < s.gss && VisibleOf(s, vis)
    ensures forall c :: c in r <==> exists k :: 0 <= k < |vis| && GsOffered(s, dstGid, vis[k]) == Some(c)
  {
    if |vis| == 0 then []
    else
      var rest := GsPossibilities(s, dstGid, vis[1..]);
      assert forall k :: 1 <= k < |vis| ==> vis[1..][k - 1] == vis[k];
      match GsOffered(s, dstGid, vis[0])
      case None => rest
      case Some(c) =>
        assert forall x :: x in [c] + rest <==> x == c || x in rest;
        [c] + rest
  }

  /** Every candidate is a satellite. */
  lemma GsPossibilitiesAreSatellites(s: Snapshot, dstGid: nat, vis: seq<Visible>)
    requires WellFormed(s) && dstGid < s.gss && VisibleOf(s, vis)
    ensures forall k :: 0 <= k < |GsPossibilities(s, dstGid, vis)| ==> 0 <= GsPossibilities(s, dstGid, vis)[k].node < s.sats
  {
    var r := GsPossibilities(s, dstGid, vis);
    forall k | 0 <= k < |r| ensures 0 <= r[k].node < s.sats {
      assert r[k] in r;
      var j :| 0 <= j < |vis| && GsOffered(s, dstGid, vis[j]) == Some(r[k]);
    }
  }

  /** The three slots of ground station `src` toward ground station `dst`. */
  function GsToGs(s: Snapshot, src: nat, dst: nat): (r: seq<Triple>)
    requires WellFormed(s) && src < s.gss && dst < s.gss
    ensures |r| == 3 && forall k :: 0 <= k < 3 ==> SlotOk(s, r[k])
    ensures forall k :: 0 <= k < 3 && r[k] != DROP_TRIPLE ==>
              0 <= r[k].next < s.sats && r[k].myIf == 0 && r[k].nextIf == s.islCount[r[k].next] + s.gslIfIdx[src]
  {
    var poss := GsPossibilities(s, dst, s.inRange[src]);
    GsPossibilitiesAreSatellites(s, dst, s.inRange[src]);
    TopNodesBelow(poss, s.sats);
    Pad(GsTriples(s, src, TopThree(poss)))
  }

  /** The chosen candidates keep a bound every candidate meets. */
  lemma TopNodesBelow(poss: seq<Cand>, n: nat)
    requires forall k :: 0 <= k < |poss| ==> 0 <= poss[k].node < n
    ensures forall k :: 0 <= k < |TopThree(poss)| ==> 0 <= TopThree(poss)[k].node < n
  {
    TopThreeFromInput(poss);
    forall k | 0 <= k < |TopThree(poss)| ensures 0 <= TopThree(poss)[k].node < n {
      assert TopThree(poss)[k] in poss;
    }
  }

  /** A ground station's slot toward satellite `c.node`: its own GSL, and the
      satellite's GSL interface. */
  function GsTriples(s: Snapshot, src: nat, top: seq<Cand>): (ts: seq<Triple>)
    requires WellFormed(s) && src < s.gss && forall k :: 0 <= k < |top| ==> 0 <= top[k].node < s.sats
    ensures |ts| == |top|
    ensures forall k :: 0 <= k < |ts| ==> ts[k] == Triple(top[k].node, 0, s.islCount[top[k].node] + s.gslIfIdx[src])
  {
    seq(|top|, k requires 0 <= k < |top| => Triple(top[k].node, 0, s.islCount[top[k].node] + s.gslIfIdx[src]))
  }

  /** The satellites a ground station lists are the best offers, in order. */
  lemma GsToGsChoosesBest(s: Snapshot, src: nat, dst: nat)
    requires WellFormed(s) && src < s.gss && dst < s.gss
    ensures var top := TopThree(GsPossibilities(s, dst, s.inRange[src]));
            forall k :: 0 <= k < 3 ==> GsToGs(s, src, dst)[k].next == if k < |top| then top[k].node else -1
  {
  }

  // ---------------------------------------------------------------------------
  // Rows and the delta output

  /** One computed entry: `(current, target)` and its three slots. */
  datatype Row = Row(cur: int, target: int, slots: seq<Triple>)

  predicate RowShaped(s: Snapshot, r: Row) {
    |r.slots| == 3 && r.cur != r.target && s.sats <= r.target < s.sats + s.gss
    && 0 <= r.cur < s.sats + s.gss
    && SlotOk(s, r.slots[0]) && SlotOk(s, r.slots[1]) && SlotOk(s, r.slots[2])
  }

  /** Satellite rows `curr` onward, for every ground station. */
  function SatRows(s: Snapshot, curr: nat): (rows: seq<Row>)
    requires WellFormed(s) && curr <= s.sats
    decreases s.sats - curr
    ensures forall k :: 0 <= k < |rows| ==> RowShaped(s, rows[k]) && curr <= rows[k].cur < s.sats
  {
    if curr == s.sats then []
    else
      seq(s.gss, g requires 0 <= g < s.gss => Row(curr, s.sats + g, SatToGs(s, curr, g).0))
      + SatRows(s, curr + 1)
  }

  /** Ground-station rows from `src` onward, for every other ground station. */
  function GsRows(s: Snapshot, src: nat): (rows: seq<Row>)
    requires WellFormed(s) && src <= s.gss
    decreases s.gss - src
    ensures forall k :: 0 <= k < |rows| ==> RowShaped(s, rows[k]) && s.sats + src <= rows[k].cur < s.sats + s.gss
  {
    if src == s.gss then []
    else GsRowsTo(s, src, 0) + GsRows(s, src + 1)
  }

  function GsRowsTo(s: Snapshot, src: nat, dst: nat): (rows: seq<Row>)
    requires WellFormed(s) && src < s.gss && dst <= s.gss
    decreases s.gss - dst
    ensures forall k :: 0 <= k < |rows| ==> RowShaped(s, rows[k]) && rows[k].cur == s.sats + src
  {
    if dst == s.gss then []
    else if src == dst then GsRowsTo(s, src, dst + 1)
    else [Row(s.sats + src, s.sats + dst, GsToGs(s, src, dst))] + GsRowsTo(s, src, dst + 1)
  }

  /** Every entry the generator computes, in its order. */
  function AllRows(s: Snapshot): (rows: seq<Row>)
    requires WellFormed(s)
    ensures forall k :: 0 <= k < |rows| ==> RowShaped(s, rows[k])
  {
    SatRows(s, 0) + GsRows(s, 0)
  }

  function NextNodes(r: Row): seq<int>
    requires |r.slots| == 3
  {
    [r.slots[0].next, r.slots[1].next, r.slots[2].next]
  }

  /** The eleven comma-separated fields of a row. */
  function Line(r: Row): (f: seq<int>)
    requires |r.slots| == 3
    ensures |f| == 11 && f[0] == r.cur && f[1] == r.target
    ensures forall k :: 0 <= k < 3 ==>
              f[2 + 3 * k] == r.slots[k].next && f[3 + 3 * k] == r.slots[k].myIf && f[4 + 3 * k] == r.slots[k].nextIf
  {
    [r.cur, r.target,
     r.slots[0].next, r.slots[0].myIf, r.slots[0].nextIf,
     r.slots[1].next, r.slots[1].myIf, r.slots[1].nextIf,
     r.slots[2].next, r.slots[2].myIf, r.slots[2].nextIf]
  }

  /** The previous step's state: the next-node ids per `(current, target)`. */
  type State = map<(int, int), seq<int>>

  /** Python's `not prev_fstate`: no previous step, or an empty one. */
  predicate NoPrevious(prev: Option<State>) {
    prev.None? || |prev.value| == 0
  }

  predicate Known(prev: Option<State>, r: Row) {
    NoPrevious(prev) || (r.cur, r.target) in prev.value
  }

  /** The row's line is written. */
  predicate Changed(prev: Option<State>, r: Row)
    requires |r.slots| == 3 && Known(prev, r)
  {
    NoPrevious(prev) || prev.value[(r.cur, r.target)] != NextNodes(r)
  }

  predicate AllShaped(rows: seq<Row>) {
    forall k :: 0 <= k < |rows| ==> |rows[k].slots| == 3
  }

  /** The state handed to the next step: every row's next nodes. */
  function Record(rows: seq<Row>): (st: State)
    requires AllShaped(rows)
    ensures forall k :: 0 <= k < |rows| ==> (rows[k].cur, rows[k].target) in st
    ensures forall key :: key in st ==>
              exists k :: 0 <= k < |rows| && key == (rows[k].cur, rows[k].target) && st[key] == NextNodes(rows[k])
  {
    if |rows| == 0 then map[]
    else
      var front := rows[..|rows| - 1];
      var last := rows[|rows| - 1];
      assert forall k :: 0 <= k < |front| ==> front[k] == rows[k];
      Record(front)[(last.cur, last.target) := NextNodes(last)]
  }

  /** The lines written: the rows whose next nodes changed, in order. */
  function Written(prev: Option<State>, rows: seq<Row>): (lines: seq<seq<int>>)
    requires AllShaped(rows) && forall k :: 0 <= k < |rows| ==> Known(prev, rows[k])
    ensures forall k :: 0 <= k < |rows| && Changed(prev, rows[k]) ==> Line(rows[k]) in lines
    ensures forall line :: line in lines ==> exists k :: 0 <= k < |rows| && Changed(prev, rows[k]) && line == Line(rows[k])
  {
    if |rows| == 0 then []
    else
      var front := rows[..|rows| - 1];
      var last := rows[|rows| - 1];
      assert forall k :: 0 <= k < |front| ==> front[k] == rows[k];
      Written(prev, front) + if Changed(prev, last) then [Line(last)] else []
  }

  /** The file and the returned state; a previous state that lacks a row's
      pair raises `KeyError`. */
  function Emit(prev: Option<State>, rows: seq<Row>): (r: Outcome<(seq<seq<int>>, State)>)
    requires AllShaped(rows)
    ensures r.Ok? <==> forall k :: 0 <= k < |rows| ==> Known(prev, rows[k])
    ensures r.Ok? ==> r.value == (Written(prev, rows), Record(rows))
  {
    if forall k :: 0 <= k < |rows| ==> Known(prev, rows[k]) then Ok((Written(prev, rows), Record(rows)))
    else Abort("KeyError")
  }

  /** With a previous state, a pair whose line is not written kept its next
      nodes, so the loader that replays the written lines over the previous
      snapshot sees every change. */
  lemma UnwrittenRowsKept(prev: State, rows: seq<Row>)
    requires AllShaped(rows) && |prev| > 0
    requires Emit(Some(prev), rows).Ok?
    ensures forall k :: 0 <= k < |rows| && Line(rows[k]) !in Emit(Some(prev), rows).value.0 ==>
              prev[(rows[k].cur, rows[k].target)] == NextNodes(rows[k])
  {
  }

  /** The fields of one slot of a line: a drop, or a hop with no -1 field. */
  predicate FieldsOk(s: Snapshot, line: seq<int>, k: nat)
    requires |line| == 11 && k < 3
  {
    (line[2 + 3 * k] == -1 && line[3 + 3 * k] == -1 && line[4 + 3 * k] == -1)
    || (0 <= line[2 + 3 * k] < s.sats + s.gss && line[3 + 3 * k] >= 0 && line[4 + 3 * k] >= 0)
  }

  predicate LineFits(s: Snapshot, line: seq<int>) {
    |line| == 11 && 0 <= line[0] < s.sats + s.gss && s.sats <= line[1] < s.sats + s.gss && line[0] != line[1]
    && FieldsOk(s, line, 0) && FieldsOk(s, line, 1) && FieldsOk(s, line, 2)
  }

  /** `calculate_fstate_shortest_path_without_gs_relaying`: every written line
      has eleven fields, starts at a satellite or ground station, targets
      another ground station, and each slot is a drop or a real hop. */
  lemma GeneratedLinesFitLoader(s: Snapshot, prev: Option<State>)
    requires WellFormed(s) && Emit(prev, AllRows(s)).Ok?
    ensures forall line :: line in Emit(prev, AllRows(s)).value.0 ==> LineFits(s, line)
  {
    WrittenLinesFit(s, prev, AllRows(s));
  }

  lemma WrittenLinesFit(s: Snapshot, prev: Option<State>, rows: seq<Row>)
    requires forall k :: 0 <= k < |rows| ==> RowShaped(s, rows[k])
    requires AllShaped(rows) && forall k :: 0 <= k < |rows| ==> Known(prev, rows[k])
    ensures forall line :: line in Written(prev, rows) ==> LineFits(s, line)
  {
    forall line | line in Written(prev, rows) ensures LineFits(s, line) {
      var k :| 0 <= k < |rows| && Changed(prev, rows[k]) && line == Line(rows[k]);
      LineOfShapedRow(s, rows[k]);
    }
  }

  lemma LineOfShapedRow(s: Snapshot, r: Row)
    requires RowShaped(s, r)
    ensures LineFits(s, Line(r))
  {
  }
}
