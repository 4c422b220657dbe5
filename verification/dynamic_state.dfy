/** The driver of the offline generator (`generate_dynamic_state`): the time
    steps it computes, the ISL interface numbering, the ground-station range
    rule and the choice of algorithm.

    The driver prints a progress line every tenth of the run when not verbose,
    testing `i % int(floor(total) / 10.0) == 0`; with fewer than ten steps
    that divisor is zero and the modulo raises `ZeroDivisionError` at the first
    step. In verbose mode the basic-information block adds a string to the
    `None` that `print` returns, which raises `TypeError` at the first step.
    The supported algorithm is imported as a module and then called as if it
    were the function of that name, which raises `TypeError` ("'module' object
    is not callable") at the first step that gets that far. As written no run
    with a time step computes anything. `RunAsWritten` models all three;
    `Run` prints every `max(1, total / 10)` steps, prints the verbose block
    correctly and calls the algorithm's function. The work of one time step
    before the call (ranges, ISL numbering) is modelled by the members below.
 */
module DynamicState {
  import opened Outcomes
  import FstateGen
  import Helpers
  import WorkPartition

  const FREE_ONE_ONLY_OVER_ISLS: string := "algorithm_free_one_only_over_isls"
  const FREE_GS_ONE_SAT_MANY: string := "algorithm_free_gs_one_sat_many_only_over_isls"
  const FREE_ONE_ONLY_GS_RELAYS: string := "algorithm_free_one_only_gs_relays"
  const PAIRED_MANY: string := "algorithm_paired_many_only_over_isls"

  /** The three ways the driver as written stops at its first step. */
  const ZERO_DIVISION: string := "ZeroDivisionError"
  const NONE_PLUS_STR: string := "TypeError: unsupported operand type(s) for +: 'NoneType' and 'str'"
  const MODULE_CALLED: string := "TypeError: 'module' object is not callable"

  /** The algorithm dispatch: only one algorithm is supported; the other three
      known names and any unknown name raise `ValueError`. */
  function Dispatch(algorithm: string): (r: Outcome<()>)
    ensures r.Ok? <==> algorithm == FREE_ONE_ONLY_OVER_ISLS
  {
    if algorithm == FREE_ONE_ONLY_OVER_ISLS then Ok(())
    else if algorithm in {FREE_GS_ONE_SAT_MANY, FREE_ONE_ONLY_GS_RELAYS, PAIRED_MANY} then
      Abort("Now not support the algorithm: " + algorithm)
    else Abort("Unknown dynamic state algorithm: " + algorithm)
  }

  /** `range(offset, end, step)`. */
  function Times(offset: int, end: int, step: nat): (ts: seq<int>)
    requires step > 0
    decreases end - offset
    ensures |ts| == 0 <==> offset >= end
    ensures forall k :: 0 <= k < |ts| ==> ts[k] == offset + k * step && ts[k] < end
    ensures |ts| > 0 ==> end <= offset + |ts| * step
  {
    if offset >= end then []
    else
      var rest := Times(offset + step, end, step);
      assert forall k :: 1 <= k < 1 + |rest| ==> offset + step + (k - 1) * step == offset + k * step;
      assert |rest| > 0 ==> offset + step + |rest| * step == offset + (1 + |rest|) * step;
      [offset] + rest
  }

  /** The generator writes exactly the snapshots a dynamic simulation of the
      same length and interval loads. */
  lemma {:induction false} GeneratedTimesAreLoaded(t: int, end: int, interval: nat)
    requires interval > 0 && t < end
    ensures Times(t, end, interval) == Helpers.LoadTimes(t, interval, end, false)
    decreases end - t
  {
    if t + interval < end {
      GeneratedTimesAreLoaded(t + interval, end, interval);
    }
  }

  /** A range of `n` whole steps has `n` elements. */
  lemma {:induction false} TimesLength(offset: int, n: nat, step: nat)
    requires step > 0
    ensures |Times(offset, offset + n * step, step)| == n
    decreases n
  {
    if n > 0 {
      assert offset + step + (n - 1) * step == offset + n * step;
      TimesLength(offset + step, n - 1, step);
    }
  }

  /** A thread other than the last computes its share and then one more time
      step, the first of the next thread's share: that boundary step is
      computed, and its snapshot written, by both threads. */
  lemma ThreadComputesNextOffset(num: nat, threads: nat, step: nat, i: nat)
    requires threads > 0 && step > 0 && i + 1 < threads
    ensures var job := WorkPartition.JobAt(num, threads, step, i);
            var ts := Times(job.offset, job.end, step);
            |ts| == job.steps + 1 && ts[job.steps] == WorkPartition.JobAt(num, threads, step, i + 1).offset
  {
    var job := WorkPartition.JobAt(num, threads, step, i);
    var n := job.steps;
    var b := WorkPartition.Before(num, threads, i);
    var b' := WorkPartition.Before(num, threads, i + 1);
    assert b' == b + n;
    assert job.offset == b * step && job.end == b' * step + step;
    assert job.end == job.offset + (n + 1) * step by {
      assert b' * step == b * step + n * step;
    }
    TimesLength(job.offset, n + 1, step);
    assert job.offset + n * step == b' * step;
  }

  /** `int(math.floor(total_iterations) / 10.0)` for a non-empty run. */
  function ProgressDivisorAsWritten(offset: int, end: int, step: nat): nat
    requires step > 0 && offset < end
  {
    ((end - offset) / step) / 10
  }

  /** The divisor of a run that prints about ten progress lines. */
  function ProgressDivisor(offset: int, end: int, step: nat): (d: nat)
    requires step > 0 && offset < end
    ensures d > 0
  {
    var d := ProgressDivisorAsWritten(offset, end, step);
    if d == 0 then 1 else d
  }

  predicate Accepted(offset: int, end: int, step: nat, algorithm: string) {
    step > 0 && offset % step == 0 && (offset < end ==> algorithm == FREE_ONE_ONLY_OVER_ISLS)
  }

  /** The times computed by `generate_dynamic_state` as written: an aligned
      empty range succeeds with no times, and every run with a time step stops
      at its first step. */
  function RunAsWritten(offset: int, end: int, step: nat, verbose: bool, algorithm: string): (r: Outcome<seq<int>>)
    ensures r.Ok? <==> step > 0 && offset % step == 0 && offset >= end
    ensures r.Ok? ==> r.value == [] == Times(offset, end, step)
    ensures step > 0 && offset % step == 0 && offset < end && !verbose && ProgressDivisorAsWritten(offset, end, step) == 0 ==>
              r == Abort(ZERO_DIVISION)
    ensures step > 0 && offset % step == 0 && offset < end && verbose ==> r == Abort(NONE_PLUS_STR)
    ensures step > 0 && offset % step == 0 && offset < end && !verbose && ProgressDivisorAsWritten(offset, end, step) > 0 ==>
              r == (if algorithm == FREE_ONE_ONLY_OVER_ISLS then Abort(MODULE_CALLED) else Abort(Dispatch(algorithm).reason))
  {
    if step == 0 then Abort(ZERO_DIVISION)
    else if offset % step != 0 then Abort("Offset must be a multiple of time_step_ns")
    else if offset >= end then Ok([])
    else if verbose then Abort(NONE_PLUS_STR)
    else if ProgressDivisorAsWritten(offset, end, step) == 0 then Abort(ZERO_DIVISION)
    else
      var _ :- Dispatch(algorithm);
      Abort(MODULE_CALLED)
  }

  /** The same driver with a progress divisor of at least one, the verbose
      block printed as meant and the algorithm's function called: it accepts
      every run whose offset is aligned and whose algorithm is supported. */
  function Run(offset: int, end: int, step: nat, verbose: bool, algorithm: string): (r: Outcome<seq<int>>)
    ensures r.Ok? <==> Accepted(offset, end, step, algorithm)
    ensures r.Ok? ==> r.value == Times(offset, end, step)
  {
    if step == 0 then Abort(ZERO_DIVISION)
    else if offset % step != 0 then Abort("Offset must be a multiple of time_step_ns")
    else if offset >= end then Ok([])
    else
      var _ :- Dispatch(algorithm);
      Ok(Times(offset, end, step))
  }

  /** The steps at which the corrected driver prints progress: the first one,
      then every `d`-th. */
  function ProgressSteps(n: nat, d: nat): (ks: seq<nat>)
    requires d > 0
    ensures forall i: nat :: i in ks <==> i < n && i % d == 0
  {
    if n == 0 then []
    else
      var front := ProgressSteps(n - 1, d);
      if (n - 1) % d == 0 then front + [n - 1] else front
  }

  /** Five steps of 200 ms in one second: the driver as written stops at the
      first step, the corrected one computes all five. */
  lemma ShortRunStops()
    ensures RunAsWritten(0, 1_000_000_000, 200_000_000, false, FREE_ONE_ONLY_OVER_ISLS) == Abort(ZERO_DIVISION)
    ensures Run(0, 1_000_000_000, 200_000_000, false, FREE_ONE_ONLY_OVER_ISLS).Ok?
    ensures |Run(0, 1_000_000_000, 200_000_000, false, FREE_ONE_ONLY_OVER_ISLS).value| == 5
  {
    var ts := Times(0, 1_000_000_000, 200_000_000);
    assert ts[4] == 800_000_000;
    assert |ts| * 200_000_000 >= 1_000_000_000;
  }

  /** A verbose run with at least one step stops at its first step as
      written, whatever the algorithm; the corrected driver computes every
      step of an accepted run. */
  lemma VerboseRunStops(offset: int, end: int, step: nat, algorithm: string)
    requires step > 0 && offset % step == 0 && offset < end
    ensures RunAsWritten(offset, end, step, true, algorithm) == Abort(NONE_PLUS_STR)
    ensures algorithm == FREE_ONE_ONLY_OVER_ISLS ==>
              Run(offset, end, step, true, algorithm) == Ok(Times(offset, end, step))
              && |Run(offset, end, step, true, algorithm).value| > 0
  {
  }

  /** A quiet run of at least ten steps of the supported algorithm gets past
      the progress test and stops at the algorithm call as written; the
      corrected driver computes all of its steps. */
  lemma ModuleCallStops(offset: int, end: int, step: nat)
    requires step > 0 && offset % step == 0 && (end - offset) / step >= 10
    ensures RunAsWritten(offset, end, step, false, FREE_ONE_ONLY_OVER_ISLS) == Abort(MODULE_CALLED)
    ensures Run(offset, end, step, false, FREE_ONE_ONLY_OVER_ISLS) == Ok(Times(offset, end, step))
    ensures |Run(offset, end, step, false, FREE_ONE_ONLY_OVER_ISLS).value| >= 10
  {
    var n := (end - offset) / step;
    assert offset + n * step <= end;
    assert offset + 10 * step <= offset + n * step;
    TimesLength(offset, 10, step);
    TimesPrefix(offset, 10, end, step);
  }

  /** A range reaching at least `n` whole steps has at least `n` elements. */
  lemma {:induction false} TimesPrefix(offset: int, n: nat, end: int, step: nat)
    requires step > 0 && offset + n * step <= end
    ensures |Times(offset, end, step)| >= n
    decreases n
  {
    if n > 0 {
      assert offset + step + (n - 1) * step == offset + n * step;
      TimesPrefix(offset + step, n - 1, end, step);
    }
  }

  /** The driver as written never yields a time: whatever it is given, it
      either stops or returns the empty range, while the corrected driver
      yields every time of an accepted non-empty run. */
  lemma AsWrittenComputesNothing(offset: int, end: int, step: nat, verbose: bool, algorithm: string)
    ensures RunAsWritten(offset, end, step, verbose, algorithm).Ok? ==>
              RunAsWritten(offset, end, step, verbose, algorithm).value == []
    ensures Accepted(offset, end, step, algorithm) && offset < end ==>
              RunAsWritten(offset, end, step, verbose, algorithm).Abort?
              && Run(offset, end, step, verbose, algorithm) == Ok(Times(offset, end, step))
              && |Times(offset, end, step)| > 0
  {
  }

  // ---------------------------------------------------------------------------
  // ISL interface numbering

  /** An ISL `(a, b)` with its length at this time step. */
  datatype Isl = Isl(a: int, b: int, length: nat)

  predicate IslsInRange(numSats: nat, isls: seq<Isl>) {
    forall k :: 0 <= k < |isls| ==> 0 <= isls[k].a < numSats && 0 <= isls[k].b < numSats
  }

  /** How many ends of the ISLs are at satellite `x` (a loop counts twice). */
  function Degree(isls: seq<Isl>, x: int): nat {
    if |isls| == 0 then 0
    else
      var l := isls[|isls| - 1];
      Degree(isls[..|isls| - 1], x) + (if l.a == x then 1 else 0) + (if l.b == x then 1 else 0)
  }

  type IfMap = map<(int, int), nat>

  /** The ISL loop: each ISL gets, on each end, the number of ISLs that end
      already has; an ISL longer than the maximum raises `ValueError`. */
  function NumberIsls(numSats: nat, isls: seq<Isl>, maxLen: nat): (r: Outcome<(IfMap, seq<nat>)>)
    requires IslsInRange(numSats, isls)
    ensures r.Ok? <==> forall k :: 0 <= k < |isls| ==> isls[k].length <= maxLen
    ensures r.Ok? ==> |r.value.1| == numSats && forall x :: 0 <= x < numSats ==> r.value.1[x] == Degree(isls, x)
    ensures r.Ok? ==> forall k :: 0 <= k < |isls| ==> (isls[k].a, isls[k].b) in r.value.0 && (isls[k].b, isls[k].a) in r.value.0
  {
    if |isls| == 0 then Ok((map[], seq(numSats, _ => 0)))
    else
      var front := isls[..|isls| - 1];
      var l := isls[|isls| - 1];
      assert forall k :: 0 <= k < |front| ==> front[k] == isls[k];
      var done :- NumberIsls(numSats, front, maxLen);
      if l.length > maxLen then Abort("The distance between two satellites with an ISL exceeded the maximum ISL length")
      else
        var (ifs, counts) := done;
        var ifs' := ifs[(l.a, l.b) := counts[l.a]][(l.b, l.a) := counts[l.b]];
        var counts1 := counts[l.a := counts[l.a] + 1];
        Ok((ifs', counts1[l.b := counts1[l.b] + 1]))
  }

  /** No self-loops and no ISL listed twice, in either direction. */
  predicate Simple(isls: seq<Isl>) {
    (forall k :: 0 <= k < |isls| ==> isls[k].a != isls[k].b)
    && forall i, j :: 0 <= i < j < |isls| ==>
         (isls[i].a, isls[i].b) != (isls[j].a, isls[j].b) && (isls[i].a, isls[i].b) != (isls[j].b, isls[j].a)
  }

  /** The last ISL's step of the numbering. */
  lemma NumberIslsLast(numSats: nat, isls: seq<Isl>, maxLen: nat)
    requires IslsInRange(numSats, isls) && |isls| > 0
    requires NumberIsls(numSats, isls, maxLen).Ok?
    ensures IslsInRange(numSats, isls[..|isls| - 1])
    ensures NumberIsls(numSats, isls[..|isls| - 1], maxLen).Ok?
    ensures var l := isls[|isls| - 1];
            var prev := NumberIsls(numSats, isls[..|isls| - 1], maxLen).value;
            NumberIsls(numSats, isls, maxLen).value.0
              == prev.0[(l.a, l.b) := prev.1[l.a]][(l.b, l.a) := prev.1[l.b]]
            && prev.1[l.a] == Degree(isls[..|isls| - 1], l.a)
            && prev.1[l.b] == Degree(isls[..|isls| - 1], l.b)
  {
    var front := isls[..|isls| - 1];
    assert forall k :: 0 <= k < |front| ==> front[k] == isls[k];
  }

  /** On a simple list, each ISL's interface on an end is the number of earlier
      ISLs at that end: the interfaces of a satellite are numbered 0, 1, ... in
      list order. */
  lemma {:induction false} InterfacesInListOrder(numSats: nat, isls: seq<Isl>, maxLen: nat, k: nat)
    requires IslsInRange(numSats, isls) && Simple(isls)
    requires NumberIsls(numSats, isls, maxLen).Ok? && k < |isls|
    ensures var ifs := NumberIsls(numSats, isls, maxLen).value.0;
            (isls[k].a, isls[k].b) in ifs && ifs[(isls[k].a, isls[k].b)] == Degree(isls[..k], isls[k].a)
            && (isls[k].b, isls[k].a) in ifs && ifs[(isls[k].b, isls[k].a)] == Degree(isls[..k], isls[k].b)
  {
    var n := |isls| - 1;
    var front := isls[..n];
    var l := isls[n];
    NumberIslsLast(numSats, isls, maxLen);
    if k < n {
      assert front[k] == isls[k];
      assert Simple(front) by {
        assert forall m :: 0 <= m < n ==> front[m] == isls[m];
      }
      InterfacesInListOrder(numSats, front, maxLen, k);
      assert front[..k] == isls[..k];
      assert (isls[k].a, isls[k].b) != (l.a, l.b) && (isls[k].a, isls[k].b) != (l.b, l.a);
    } else {
      assert isls[..k] == front;
    }
  }

  lemma {:induction false} DegreeGrows(isls: seq<Isl>, i: nat, j: nat, x: int)
    requires i <= j <= |isls|
    ensures Degree(isls[..i], x) <= Degree(isls[..j], x)
    decreases j - i
  {
    if i < j {
      DegreeGrows(isls, i, j - 1, x);
      assert isls[..j][..j - 1] == isls[..j - 1];
    }
  }

  /** Two ISLs at the same satellite get different interfaces, the earlier
      one the smaller, both below the satellite's ISL count. */
  lemma DistinctInterfaces(numSats: nat, isls: seq<Isl>, maxLen: nat, i: nat, j: nat)
    requires IslsInRange(numSats, isls) && Simple(isls)
    requires NumberIsls(numSats, isls, maxLen).Ok?
    requires i < j < |isls| && isls[i].a == isls[j].a
    ensures var (ifs, counts) := NumberIsls(numSats, isls, maxLen).value;
            ifs[(isls[i].a, isls[i].b)] < ifs[(isls[j].a, isls[j].b)] < counts[isls[j].a]
  {
    var x := isls[i].a;
    DegreesIncrease(isls, i, j, x);
    InterfacesInListOrder(numSats, isls, maxLen, i);
    InterfacesInListOrder(numSats, isls, maxLen, j);
    CountIsDegree(numSats, isls, maxLen, x);
  }

  /** Each ISL at `x` raises the number of ISLs at `x` seen so far. */
  lemma DegreesIncrease(isls: seq<Isl>, i: nat, j: nat, x: int)
    requires i < j < |isls| && isls[i].a == x && isls[j].a == x
    ensures Degree(isls[..i], x) < Degree(isls[..j], x) < Degree(isls, x)
  {
    PrefixStep(isls, i, x);
    DegreeGrows(isls, i + 1, j, x);
    PrefixStep(isls, j, x);
    DegreeGrows(isls, j + 1, |isls|, x);
    assert isls[..|isls|] == isls;
  }

  lemma CountIsDegree(numSats: nat, isls: seq<Isl>, maxLen: nat, x: nat)
    requires IslsInRange(numSats, isls)
    requires NumberIsls(numSats, isls, maxLen).Ok? && x < numSats
    ensures x < |NumberIsls(numSats, isls, maxLen).value.1|
    ensures NumberIsls(numSats, isls, maxLen).value.1[x] == Degree(isls, x)
  {
  }

  /** Adding ISL `k` to the prefix adds its ends at `x`. */
  lemma PrefixStep(isls: seq<Isl>, k: nat, x: int)
    requires k < |isls|
    ensures Degree(isls[..k + 1], x) == Degree(isls[..k], x) + (if isls[k].a == x then 1 else 0) + (if isls[k].b == x then 1 else 0)
  {
    assert isls[..k + 1][..k] == isls[..k];
  }

  // ---------------------------------------------------------------------------
  // Satellites in range of a ground station

  /** A satellite is in range when its distance is at most the maximum GSL
      length, boundary included. */
  predicate InGslRange(d: nat, maxLen: nat) {
    d <= maxLen
  }

  /** The satellites in range of one ground station, by increasing id, from
      the distances to every satellite. */
  function SatellitesInRange(dists: seq<nat>, maxLen: nat): (r: seq<FstateGen.Visible>)
    ensures forall v :: v in r <==> 0 <= v.sat < |dists| && v.dist == dists[v.sat] && InGslRange(v.dist, maxLen)
    ensures forall i, j :: 0 <= i < j < |r| ==> r[i].sat < r[j].sat
  {
    if |dists| == 0 then []
    else
      var n := |dists| - 1;
      var front := SatellitesInRange(dists[..n], maxLen);
      assert forall i :: 0 <= i < n ==> dists[..n][i] == dists[i];
      if InGslRange(dists[n], maxLen) then front + [FstateGen.Visible(dists[n], n)] else front
  }
}
