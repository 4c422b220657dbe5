/** How `help_dynamic_state` splits the time steps of a run among worker
    threads: `num = floor(end / step)` steps, every thread gets
    `floor(num / threads)` of them and the first `num mod threads` threads one
    more; each thread starts where the previous one stopped and, except the
    last, runs one step past its share. The thread pool itself is not part of
    the model.
 */
module WorkPartition {
  import opened Outcomes

  const NS_PER_S: nat := 1_000_000_000
  const NS_PER_MS: nat := 1_000_000

  /** One thread's arguments: its number of steps, its offset and its end. */
  datatype Job = Job(steps: nat, offset: nat, end: nat)

  /** The number of steps of thread `i`. */
  function Share(num: nat, threads: nat, i: nat): nat
    requires threads > 0
  {
    num / threads + if i < num % threads then 1 else 0
  }

  /** Steps handed to the threads before thread `i`. */
  function Before(num: nat, threads: nat, i: nat): nat
    requires threads > 0
  {
    if i == 0 then 0 else Before(num, threads, i - 1) + Share(num, threads, i - 1)
  }

  function Min(a: nat, b: nat): nat {
    if a <= b then a else b
  }

  lemma {:induction false} BeforeClosedForm(num: nat, threads: nat, i: nat)
    requires threads > 0
    ensures Before(num, threads, i) == i * (num / threads) + Min(i, num % threads)
  {
    if i > 0 {
      BeforeClosedForm(num, threads, i - 1);
      assert (i - 1) * (num / threads) + num / threads == i * (num / threads);
    }
  }

  /** All the steps are handed out, none twice. */
  lemma SharesCoverRun(num: nat, threads: nat)
    requires threads > 0
    ensures Before(num, threads, threads) == num
  {
    BeforeClosedForm(num, threads, threads);
    assert num == threads * (num / threads) + num % threads;
  }

  /** Shares never grow with the thread index and differ by at most one. */
  lemma SharesBalanced(num: nat, threads: nat, i: nat, j: nat)
    requires threads > 0 && i <= j
    ensures Share(num, threads, j) <= Share(num, threads, i) <= Share(num, threads, j) + 1
  {
  }

  /** The arguments `help_dynamic_state` passes to thread `i`: its share of the
      `num` steps, the offset where the shares before it end, and an end one
      step past its own share unless it is the last thread. */
  function JobAt(num: nat, threads: nat, step: nat, i: nat): Job
    requires threads > 0
  {
    Job(Share(num, threads, i), Before(num, threads, i) * step,
        Before(num, threads, i + 1) * step + if i + 1 != threads then step else 0)
  }

  /** The partition of a run of `durationS` seconds in steps of `stepMs`
      milliseconds over `threads` threads; a zero step or a zero thread count
      divides by zero. */
  method Partition(durationS: nat, stepMs: nat, threads: nat) returns (r: Outcome<seq<Job>>)
    ensures r.Ok? <==> stepMs > 0 && threads > 0
    ensures r.Ok? ==> |r.value| == threads
    ensures r.Ok? ==> forall i :: 0 <= i < threads ==>
              r.value[i] == JobAt((durationS * NS_PER_S) / (stepMs * NS_PER_MS), threads, stepMs * NS_PER_MS, i)
  {
    if stepMs == 0 || threads == 0 {
      return Abort("ZeroDivisionError");
    }
    var step := stepMs * NS_PER_MS;
    var num := (durationS * NS_PER_S) / step;
    var perThread := num / threads;
    var withOneMore := num % threads;
    var current := 0;
    var jobs: seq<Job> := [];
    for i := 0 to threads
      invariant |jobs| == i
      invariant current == Before(num, threads, i)
      invariant forall k :: 0 <= k < i ==> jobs[k] == JobAt(num, threads, step, k)
    {
      var n := perThread;
      if i < withOneMore {
        n := n + 1;
      }
      assert n == Share(num, threads, i);
      assert Before(num, threads, i + 1) == current + n;
      var end := (current + n) * step + if i + 1 != threads then step else 0;
      assert Job(n, current * step, end) == JobAt(num, threads, step, i);
      jobs := jobs + [Job(n, current * step, end)];
      current := current + n;
    }
    return Ok(jobs);
  }

  /** Each thread starts where the previous share ended, and a thread other
      than the last ends exactly one step into the next thread's share. */
  lemma ThreadsOverlapByOneStep(durationS: nat, stepMs: nat, threads: nat, jobs: seq<Job>, i: nat)
    requires stepMs > 0 && threads > 0 && |jobs| == threads
    requires forall k :: 0 <= k < threads ==>
               jobs[k] == JobAt((durationS * NS_PER_S) / (stepMs * NS_PER_MS), threads, stepMs * NS_PER_MS, k)
    requires i + 1 < threads
    ensures jobs[i + 1].offset == jobs[i].offset + jobs[i].steps * stepMs * NS_PER_MS
    ensures jobs[i].end == jobs[i + 1].offset + stepMs * NS_PER_MS
  {
    var step := stepMs * NS_PER_MS;
    var num := (durationS * NS_PER_S) / step;
    assert Before(num, threads, i + 1) == Before(num, threads, i) + Share(num, threads, i);
    assert (Before(num, threads, i) + Share(num, threads, i)) * step
           == Before(num, threads, i) * step + Share(num, threads, i) * step;
    assert Share(num, threads, i) * step == jobs[i].steps * stepMs * NS_PER_MS;
  }

  /** The last thread ends at the last step the run computes. */
  lemma LastThreadEndsRun(durationS: nat, stepMs: nat, threads: nat, jobs: seq<Job>)
    requires stepMs > 0 && threads > 0 && |jobs| == threads
    requires jobs[threads - 1] == JobAt((durationS * NS_PER_S) / (stepMs * NS_PER_MS), threads, stepMs * NS_PER_MS, threads - 1)
    ensures jobs[threads - 1].end == ((durationS * NS_PER_S) / (stepMs * NS_PER_MS)) * (stepMs * NS_PER_MS)
  {
    SharesCoverRun((durationS * NS_PER_S) / (stepMs * NS_PER_MS), threads);
  }

  lemma {:induction false} BeforeMonotone(num: nat, threads: nat, i: nat, j: nat)
    requires threads > 0 && i <= j
    ensures Before(num, threads, i) <= Before(num, threads, j)
    decreases j - i
  {
    if i < j {
      BeforeMonotone(num, threads, i, j - 1);
    }
  }

  /** Step `k` lies in the share of thread `i`: `Before(i) .. Before(i + 1) - 1`. */
  predicate Owns(num: nat, threads: nat, i: nat, k: nat)
    requires threads > 0
  {
    Before(num, threads, i) <= k < Before(num, threads, i + 1)
  }

  lemma {:induction false} OwnerBelow(num: nat, threads: nat, k: nat, upto: nat)
    requires threads > 0 && k < Before(num, threads, upto)
    ensures exists i :: 0 <= i < upto && Owns(num, threads, i, k)
  {
    if k >= Before(num, threads, upto - 1) {
      assert Owns(num, threads, upto - 1, k);
    } else {
      OwnerBelow(num, threads, k, upto - 1);
    }
  }

  /** Every step of the run lies in the share of exactly one thread. A thread
      other than the last also computes the first step of the next share, so
      that step is computed twice (`DynamicState.ThreadComputesNextOffset`). */
  lemma EveryStepHasOneOwner(num: nat, threads: nat, k: nat)
    requires threads > 0 && k < num
    ensures exists i :: 0 <= i < threads && Owns(num, threads, i, k)
    ensures forall i, j :: 0 <= i < threads && 0 <= j < threads && Owns(num, threads, i, k) && Owns(num, threads, j, k) ==> i == j
  {
    SharesCoverRun(num, threads);
    OwnerBelow(num, threads, k, threads);
    forall i, j | 0 <= i < threads && 0 <= j < threads && Owns(num, threads, i, k) && Owns(num, threads, j, k)
      ensures i == j
    {
      if i < j {
        BeforeMonotone(num, threads, i + 1, j);
      } else if j < i {
        BeforeMonotone(num, threads, j + 1, i);
      }
    }
  }
}
