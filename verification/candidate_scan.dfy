/** The candidate scan shared by the LEO arbiter and the combined LEO/GS arbiter:
    walk the candidate list in order and take the first entry whose node is the
    target itself or whose arbiter does not currently ask for a detour.

    Arbiters are looked up by node id in a vector (`flags[id]` is that arbiter's
    detour flag); a lookup out of range yields a null pointer in the source, and
    calling through it is reported as an `Abort(NULL_ARBITER)`. The lookup is
    skipped when the candidate is the target (short-circuit `||`).
 */
module CandidateScan {
  import opened Outcomes
  import opened Topology

  /** The helper's arbiter vector has an entry for `node`. */
  predicate HasArbiter<T>(flags: seq<T>, node: int) {
    0 <= node < |flags|
  }

  /** The candidate may be taken: it is the target, or its arbiter is calm. */
  predicate Usable(h: Hop, target: int, flags: seq<bool>) {
    h.node == target || (HasArbiter(flags, h.node) && !flags[h.node])
  }

  /** The scan passes over the candidate: not the target, arbiter detouring. */
  predicate Detouring(h: Hop, target: int, flags: seq<bool>) {
    h.node != target && HasArbiter(flags, h.node) && flags[h.node]
  }

  /** The scan reaches a candidate whose arbiter does not exist. */
  predicate Dangling(h: Hop, target: int, flags: seq<bool>) {
    h.node != target && !HasArbiter(flags, h.node)
  }

  /** Index of the first usable candidate at or after `from`, `None` when every
      remaining candidate is detouring. */
  function FirstUsable(cands: seq<Hop>, target: int, flags: seq<bool>, from: nat): (r: Outcome<Option<nat>>)
    requires from <= |cands|
    decreases |cands| - from
    ensures r.Ok? && r.value.Some? ==>
              from <= r.value.value < |cands|
              && Usable(cands[r.value.value], target, flags)
              && forall j :: from <= j < r.value.value ==> Detouring(cands[j], target, flags)
    ensures r == Ok(None) <==> forall j :: from <= j < |cands| ==> Detouring(cands[j], target, flags)
    ensures r.Abort? ==> r.reason == NULL_ARBITER
                         && exists k :: from <= k < |cands| && Dangling(cands[k], target, flags)
                                        && forall j :: from <= j < k ==> Detouring(cands[j], target, flags)
  {
    if from == |cands| then Ok(None)
    else if cands[from].node == target then Ok(Some(from))
    else if !HasArbiter(flags, cands[from].node) then Abort(NULL_ARBITER)
    else if !flags[cands[from].node] then Ok(Some(from))
    else FirstUsable(cands, target, flags, from + 1)
  }

  /** The scan aborts only when it reaches a dangling candidate before any usable
      one; in particular a list whose nodes all have arbiters (or are the target)
      never aborts. */
  lemma {:induction false} NoDanglingNoAbort(cands: seq<Hop>, target: int, flags: seq<bool>, from: nat)
    requires from <= |cands|
    requires forall j :: from <= j < |cands| ==> !Dangling(cands[j], target, flags)
    ensures FirstUsable(cands, target, flags, from).Ok?
    decreases |cands| - from
  {
    if from < |cands| && cands[from].node != target && !flags[cands[from].node] {
    } else if from < |cands| && cands[from].node != target {
      NoDanglingNoAbort(cands, target, flags, from + 1);
    }
  }

  /** Candidate `k` is the first usable one: every candidate before it detours. */
  predicate FirstUsableAt(cands: seq<Hop>, target: int, flags: seq<bool>, k: int) {
    0 <= k < |cands| && Usable(cands[k], target, flags)
    && forall j :: 0 <= j < k ==> Detouring(cands[j], target, flags)
  }

  // ---------------------------------------------------------------------------
  // Per-interface detour flags

  /** `ifaceFlags[id]` is the set of interfaces on which LEO arbiter `id` asks
      for a detour; `CheckIfNeedDetour(interface)` of the arbiter revision the
      ground station and traffic-class arbiters call. */
  predicate IfaceDetouring(ifaceFlags: seq<set<int>>, h: Hop) {
    HasArbiter(ifaceFlags, h.node) && h.remoteIf in ifaceFlags[h.node]
  }

}
