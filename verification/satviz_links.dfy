/** The index arithmetic of the visualiser's satellite layout: satellite `k` of a
    shell with `numOrbit` orbits of `n` satellites each sits in orbit `k div n`
    at position `k mod n`; orbit links join consecutive satellites of an orbit,
    and the "+Grid" links join every satellite to the next one in its orbit and
    to the one at the same position in the next orbit, both cyclically.

    Orbital elements, the ephemeris objects and the file writing are not part of
    the model: a satellite is only its slot. The list generation's one failure,
    the second orbit's phase shift dividing by zero when orbits are empty, is
    kept.
 */
module SatvizLinks {
  import opened Outcomes
  import opened Arithmetic

  /** Orbit number and position within the orbit (`orb_id`, `orb_sat_id`). */
  datatype Slot = Slot(orb: nat, pos: nat)

  /** A visualised link between two satellite indices. */
  datatype Link = Link(sat1: int, sat2: int)

  function Index(s: Slot, n: nat): nat {
    s.orb * n + s.pos
  }

  /** The slot a satellite index decodes to. */
  function SlotOf(k: nat, n: nat): Slot
    requires n > 0
  {
    Slot(k / n, k % n)
  }

  /** Decoding an encoded slot gives the slot back. */
  lemma Decompose(s: Slot, n: nat)
    requires s.pos < n
    ensures SlotOf(Index(s, n), n) == s
  {
    var x := Index(s, n);
    assert (s.orb + 1) * n == s.orb * n + n;
    DivUnique(x, n, s.orb);
    assert x == (x / n) * n + x % n;
  }

  lemma MulSucc(a: nat, b: nat)
    requires a > 0
    ensures (a - 1) * b + b == a * b
  {
  }

  /** A slot of an orbit below `o` encodes to an index below `o * n`. */
  lemma IndexBelow(s: Slot, n: nat, o: nat)
    requires s.orb < o && s.pos < n
    ensures Index(s, n) < o * n
  {
    MulMonotone(s.orb + 1, o, n);
  }

  // ---------------------------------------------------------------------------
  // Satellite list

  /** The slots of the shell, orbit by orbit, position by position. */
  function Layout(numOrbit: nat, n: nat): (r: seq<Slot>)
    ensures |r| == numOrbit * n
    ensures forall k :: 0 <= k < |r| ==> r[k].orb < numOrbit && r[k].pos < n && Index(r[k], n) == k
  {
    if numOrbit == 0 then []
    else
      var front := Layout(numOrbit - 1, n);
      assert (numOrbit - 1) * n + n == numOrbit * n;
      front + seq(n, j requires 0 <= j < n => Slot(numOrbit - 1, j))
  }

  /** `generate_sat_obj_list`: the layout, except that with a phase difference
      the second orbit's shift `360 / (num_sats_per_orbit * 2)` divides by zero
      when orbits hold no satellites. */
  function SatSlots(numOrbit: nat, n: nat, phaseDiff: bool): (r: Outcome<seq<Slot>>)
    ensures r.Abort? <==> numOrbit >= 2 && n == 0 && phaseDiff
    ensures r.Ok? ==> |r.value| == numOrbit * n
    ensures r.Ok? ==> forall k :: 0 <= k < |r.value| ==>
                        r.value[k].orb < numOrbit && r.value[k].pos < n && Index(r.value[k], n) == k
  {
    if numOrbit >= 2 && n == 0 && phaseDiff then Abort("ZeroDivisionError")
    else Ok(Layout(numOrbit, n))
  }

  /** Every slot of the shell is listed, at its own index. */
  lemma SlotAtIndex(numOrbit: nat, n: nat, phaseDiff: bool, s: Slot)
    requires s.orb < numOrbit && s.pos < n
    ensures SatSlots(numOrbit, n, phaseDiff).Ok?
    ensures Index(s, n) < numOrbit * n && SatSlots(numOrbit, n, phaseDiff).value[Index(s, n)] == s
  {
    IndexBelow(s, n, numOrbit);
    var r := Layout(numOrbit, n);
    var t := r[Index(s, n)];
    assert Index(t, n) == Index(s, n);
    Decompose(s, n);
    Decompose(t, n);
  }

  // ---------------------------------------------------------------------------
  // Orbit links

  /** The next satellite of `i`'s orbit, wrapping from the last to the first. */
  function NextInOrbit(i: nat, n: nat): int
    requires n > 0
  {
    if (i + 1) % n == 0 then i + 1 - n else i + 1
  }

  /** `generate_orbit_links` over a list of `numSats` satellites; an orbit of no
      satellites divides by zero. */
  function OrbitLinks(numSats: nat, n: nat): (r: Outcome<seq<Link>>)
    ensures r.Ok? <==> numSats == 0 || n > 0
    ensures r.Ok? ==> |r.value| == numSats
    ensures r.Ok? ==> forall i :: 0 <= i < numSats ==> r.value[i].sat1 == i
  {
    if numSats > 0 && n == 0 then Abort("ZeroDivisionError")
    else Ok(seq(numSats, i requires 0 <= i < numSats => Link(i, NextInOrbit(i, n))))
  }

  /** The next satellite of an orbit, computed from the flat index, is the
      next position of the same slot, cyclically. */
  lemma NextInOrbitIsNextSlot(s: Slot, n: nat)
    requires n > 0 && s.pos < n
    ensures NextInOrbit(Index(s, n), n) == Index(Slot(s.orb, (s.pos + 1) % n), n)
  {
    var i := Index(s, n);
    if s.pos + 1 < n {
      Decompose(Slot(s.orb, s.pos + 1), n);
      Decompose(Slot(0, s.pos + 1), n);
      assert i + 1 == Index(Slot(s.orb, s.pos + 1), n);
    } else {
      MulSucc(s.orb + 1, n);
      Decompose(Slot(s.orb + 1, 0), n);
      Decompose(Slot(1, 0), n);
      assert i + 1 == Index(Slot(s.orb + 1, 0), n);
      assert (s.pos + 1) % n == 0;
      assert NextInOrbit(i, n) == i + 1 - n == s.orb * n;
    }
  }

  /** An index inside the shell decodes to a slot of the shell. */
  lemma SlotOfInShell(numOrbit: nat, n: nat, i: nat)
    requires n > 0 && i < numOrbit * n
    ensures SlotOf(i, n).orb < numOrbit && Index(SlotOf(i, n), n) == i
  {
    assert i == (i / n) * n + i % n;
    if i / n >= numOrbit {
      MulMonotone(numOrbit, i / n, n);
    }
  }

  /** An orbit link leads to the next position of the same orbit, cyclically,
      and stays inside the shell. */
  lemma OrbitLinkStaysInOrbit(numOrbit: nat, n: nat, i: nat)
    requires n > 0 && i < numOrbit * n
    ensures var l := OrbitLinks(numOrbit * n, n).value[i];
            0 <= l.sat2 < numOrbit * n
            && SlotOf(l.sat2, n) == Slot(SlotOf(i, n).orb, (SlotOf(i, n).pos + 1) % n)
  {
    var s := SlotOf(i, n);
    SlotOfInShell(numOrbit, n, i);
    var next := Slot(s.orb, (s.pos + 1) % n);
    NextInOrbitIsNextSlot(s, n);
    assert OrbitLinks(numOrbit * n, n).value[i].sat2 == Index(next, n);
    Decompose(next, n);
    IndexBelow(next, n, numOrbit);
  }

  // ---------------------------------------------------------------------------
  // +Grid links

  /** The link to the next satellite of the same orbit. */
  function SameOrbit(s: Slot, n: nat): Link
    requires n > 0
  {
    Link(Index(s, n), Index(Slot(s.orb, (s.pos + 1) % n), n))
  }

  /** The link to the same position of the next orbit. */
  function AdjacentOrbit(s: Slot, numOrbit: nat, n: nat): Link
    requires numOrbit > 0
  {
    Link(Index(s, n), Index(Slot((s.orb + 1) % numOrbit, s.pos), n))
  }

  /** The links one satellite contributes: both, or, when the same-orbit link is
      lost, only the adjacent-orbit one. */
  function PerSat(s: Slot, numOrbit: nat, n: nat, sameOrbitKept: bool): seq<Link>
    requires numOrbit > 0 && n > 0
  {
    if sameOrbitKept then [SameOrbit(s, n), AdjacentOrbit(s, numOrbit, n)]
    else [AdjacentOrbit(s, numOrbit, n)]
  }

  function Width(sameOrbitKept: bool): nat {
    if sameOrbitKept then 2 else 1
  }

  /** The links of positions `0 .. m-1` of orbit `orb`, in loop order. */
  function RowLinks(orb: nat, m: nat, numOrbit: nat, n: nat, kept: bool): (r: seq<Link>)
    requires numOrbit > 0 && n > 0
    ensures |r| == m * Width(kept)
    ensures forall l :: l in r <==> exists pos :: 0 <= pos < m && l in PerSat(Slot(orb, pos), numOrbit, n, kept)
  {
    if m == 0 then []
    else
      var front := RowLinks(orb, m - 1, numOrbit, n, kept);
      var last := PerSat(Slot(orb, m - 1), numOrbit, n, kept);
      MulSucc(m, Width(kept));
      assert forall l :: l in front + last <==> l in front || l in last;
      front + last
  }

  /** The links of orbits `0 .. o-1`, in loop order. */
  function GridRows(o: nat, numOrbit: nat, n: nat, kept: bool): (r: seq<Link>)
    requires numOrbit > 0 && n > 0
    ensures |r| == o * (n * Width(kept))
    ensures forall l :: l in r <==>
              exists orb, pos :: 0 <= orb < o && 0 <= pos < n && l in PerSat(Slot(orb, pos), numOrbit, n, kept)
  {
    if o == 0 then []
    else
      var front := GridRows(o - 1, numOrbit, n, kept);
      var last := RowLinks(o - 1, n, numOrbit, n, kept);
      MulSucc(o, n * Width(kept));
      assert forall l :: l in front + last <==> l in front || l in last;
      front + last
  }

  /** `generate_isls_links` as written: the same-orbit link and the
      adjacent-orbit link are both stored under the same counter, so only the
      adjacent-orbit link survives. */
  function GridLinksAsWritten(numOrbit: nat, n: nat): (r: Outcome<seq<Link>>)
    ensures r.Ok? <==> numOrbit >= 3 && n >= 3
    ensures r.Ok? ==> |r.value| == numOrbit * n
    ensures r.Ok? ==> forall l :: l in r.value <==>
              exists orb, pos :: 0 <= orb < numOrbit && 0 <= pos < n && l == AdjacentOrbit(Slot(orb, pos), numOrbit, n)
  {
    if numOrbit < 3 || n < 3 then Abort("ValueError: num_orbit and num_sats_per_orbit must each be at least 3")
    else
      var r := GridRows(numOrbit, numOrbit, n, false);
      assert n * Width(false) == n;
      Ok(r)
  }

  /** The +Grid links as intended: every satellite contributes its same-orbit
      link and its adjacent-orbit link. */
  function GridLinks(numOrbit: nat, n: nat): (r: Outcome<seq<Link>>)
    ensures r.Ok? <==> numOrbit >= 3 && n >= 3
    ensures r.Ok? ==> |r.value| == 2 * numOrbit * n
    ensures r.Ok? ==> forall l :: l in r.value <==>
              exists orb, pos :: 0 <= orb < numOrbit && 0 <= pos < n
                                 && (l == SameOrbit(Slot(orb, pos), n) || l == AdjacentOrbit(Slot(orb, pos), numOrbit, n))
  {
    if numOrbit < 3 || n < 3 then Abort("ValueError: num_orbit and num_sats_per_orbit must each be at least 3")
    else
      var r := GridRows(numOrbit, numOrbit, n, true);
      assert numOrbit * (n * 2) == 2 * numOrbit * n;
      Ok(r)
  }

  /** Two slots are grid neighbours: consecutive in one orbit, or at the same
      position in consecutive orbits, both cyclically. */
  predicate Neighbours(a: Slot, b: Slot, numOrbit: nat, n: nat)
    requires numOrbit > 0 && n > 0
  {
    (a.orb == b.orb && b.pos == (a.pos + 1) % n)
    || (a.pos == b.pos && b.orb == (a.orb + 1) % numOrbit)
  }

  /** The two links of one satellite join it to grid neighbours inside the
      shell. */
  lemma SlotLinksJoinNeighbours(numOrbit: nat, n: nat, a: Slot, l: Link)
    requires numOrbit > 0 && n > 0 && a.orb < numOrbit && a.pos < n
    requires l == SameOrbit(a, n) || l == AdjacentOrbit(a, numOrbit, n)
    ensures 0 <= l.sat1 < numOrbit * n && 0 <= l.sat2 < numOrbit * n
    ensures Neighbours(SlotOf(l.sat1, n), SlotOf(l.sat2, n), numOrbit, n)
  {
    var b := if l == SameOrbit(a, n) then Slot(a.orb, (a.pos + 1) % n) else Slot((a.orb + 1) % numOrbit, a.pos);
    assert l == Link(Index(a, n), Index(b, n));
    Decompose(a, n);
    Decompose(b, n);
    IndexBelow(a, n, numOrbit);
    IndexBelow(b, n, numOrbit);
  }

  /** Every intended grid link joins two satellites of the shell that are grid
      neighbours. */
  lemma GridLinksJoinNeighbours(numOrbit: nat, n: nat, l: Link)
    requires GridLinks(numOrbit, n).Ok? && l in GridLinks(numOrbit, n).value
    ensures 0 <= l.sat1 < numOrbit * n && 0 <= l.sat2 < numOrbit * n
    ensures Neighbours(SlotOf(l.sat1, n), SlotOf(l.sat2, n), numOrbit, n)
  {
    var orb, pos :| 0 <= orb < numOrbit && 0 <= pos < n
                    && (l == SameOrbit(Slot(orb, pos), n) || l == AdjacentOrbit(Slot(orb, pos), numOrbit, n));
    SlotLinksJoinNeighbours(numOrbit, n, Slot(orb, pos), l);
  }

  /** An adjacent-orbit link leaves its orbit when there are at least two. */
  lemma AdjacentLeavesOrbit(numOrbit: nat, n: nat, a: Slot)
    requires numOrbit >= 2 && n > 0 && a.orb < numOrbit && a.pos < n
    ensures SlotOf(AdjacentOrbit(a, numOrbit, n).sat1, n).orb != SlotOf(AdjacentOrbit(a, numOrbit, n).sat2, n).orb
  {
    Decompose(a, n);
    Decompose(Slot((a.orb + 1) % numOrbit, a.pos), n);
  }

  /** With at least three orbits, no link the code keeps stays inside one orbit. */
  lemma AsWrittenLinksLeaveTheOrbit(numOrbit: nat, n: nat, l: Link)
    requires GridLinksAsWritten(numOrbit, n).Ok? && l in GridLinksAsWritten(numOrbit, n).value
    ensures SlotOf(l.sat1, n).orb != SlotOf(l.sat2, n).orb
  {
    var orb, pos :| 0 <= orb < numOrbit && 0 <= pos < n && l == AdjacentOrbit(Slot(orb, pos), numOrbit, n);
    AdjacentLeavesOrbit(numOrbit, n, Slot(orb, pos));
  }

  /** In every shell the code accepts, the link from satellite 0 to satellite 1
      of its orbit is missing from the code's output and present in the
      intended one (the smallest such shell is 3 x 3). */
  lemma GridMissesSameOrbitLink(numOrbit: nat, n: nat)
    requires numOrbit >= 3 && n >= 3
    ensures GridLinksAsWritten(numOrbit, n).Ok? && Link(0, 1) !in GridLinksAsWritten(numOrbit, n).value
    ensures GridLinks(numOrbit, n).Ok? && Link(0, 1) in GridLinks(numOrbit, n).value
  {
    Decompose(Slot(0, 0), n);
    Decompose(Slot(0, 1), n);
    assert SameOrbit(Slot(0, 0), n) == Link(0, 1);
    if Link(0, 1) in GridLinksAsWritten(numOrbit, n).value {
      AsWrittenLinksLeaveTheOrbit(numOrbit, n, Link(0, 1));
    }
  }
}
