// What every run records, whatever the policy: the counters against the
// valid references, the snapshot rules step by step, and where the pages
// of a snapshot come from.

module Trace {
  import opened Pages
  import opened Replacement

  /** The resident set just before step `k`: the previous snapshot, or the
    * empty set before the first step. */
  function Before(stats: seq<Step>, k: nat): seq<int>
    requires k <= |stats|
  {
    if k == 0 then [] else stats[k - 1].memory
  }

  /** The rules one recorded step obeys against the resident set before it. */
  ghost predicate StepObeys(before: seq<int>, step: Step, frames: int)
  {
    && Resident(step.memory, frames)
    && step.page in step.memory
    && |before| <= |step.memory|
    && (step.fault <==> step.page !in before)
    && (step.fault ==> step.memory[|step.memory| - 1] == step.page)
    && (step.fault && |before| < frames ==> step.memory == before + [step.page])
    && (!step.fault ==> multiset(step.memory) == multiset(before))
    && (forall y :: y in step.memory ==> y in before || y == step.page)
  }

  /** Step `k` of `stats` obeys the rules against the snapshot before it. */
  ghost predicate StepAt(stats: seq<Step>, k: nat, frames: int)
    requires k < |stats|
  {
    StepObeys(Before(stats, k), stats[k], frames)
  }

  lemma PrefixStep(refs: seq<Ref>, n: nat)
    requires 0 < n <= |refs|
    ensures refs[..n][..n - 1] == refs[..n - 1]
    ensures ValidPages(refs[..n]) == ValidPages(refs[..n - 1]) +
      (if refs[n - 1].Valid? then [refs[n - 1].page] else [])
  {
    assert refs[..n][..n - 1] == refs[..n - 1];
  }

  /** `hits + faults == stats.length ==` the number of valid references read. */
  lemma {:induction false} RunCounts(policy: Policy, refs: seq<Ref>, n: nat, frames: int)
    requires frames >= 1 && n <= |refs|
    ensures var s := Run(policy, refs, n, frames);
      s.hits + s.faults == |s.stats| == |ValidPages(refs[..n])|
  {
    if n == 0 {
      assert refs[..0] == [];
    } else {
      RunCounts(policy, refs, n - 1, frames);
      PrefixStep(refs, n);
    }
  }

  /** What `RunSteps` keeps from one iteration to the next. */
  ghost predicate Consistent(s: State, frames: int)
  {
    && Resident(s.memory, frames)
    && s.memory == Before(s.stats, |s.stats|)
    && forall k :: 0 <= k < |s.stats| ==> StepAt(s.stats, k, frames)
  }

  /** Every step of a run obeys `StepObeys`; the resident set stays within
    * `frames` without duplicates and equals the last snapshot. An invalid
    * reference records nothing and changes nothing. */
  lemma {:induction false} RunSteps(policy: Policy, refs: seq<Ref>, n: nat, frames: int)
    requires frames >= 1 && n <= |refs|
    ensures Consistent(Run(policy, refs, n, frames), frames)
  {
    if n > 0 {
      RunSteps(policy, refs, n - 1, frames);
      AdvanceKeepsConsistent(policy, Run(policy, refs, n - 1, frames), refs[n - 1], refs[n..], frames);
    }
  }

  lemma AdvanceKeepsConsistent(policy: Policy, s: State, ref: Ref, future: seq<Ref>, frames: int)
    requires frames >= 1 && Consistent(s, frames)
    ensures Consistent(Advance(policy, s, ref, future, frames), frames)
  {
    if ref.Valid? {
      var s' := Advance(policy, s, ref, future, frames);
      StepKeepsResidentSet(policy, s.memory, frames, ref.page, future);
      assert s'.stats == s.stats + [s'.stats[|s.stats|]];
      assert StepAt(s'.stats, |s.stats|, frames);
      forall k | 0 <= k < |s.stats| ensures StepAt(s'.stats, k, frames) {
        assert StepAt(s.stats, k, frames);
        assert Before(s'.stats, k) == Before(s.stats, k);
      }
    }
  }

  /** `stats[k].page` is the `k`-th valid page of the input. */
  lemma {:induction false} RunRecordsValidPages(policy: Policy, refs: seq<Ref>, n: nat, frames: int)
    requires frames >= 1 && n <= |refs|
    ensures var s := Run(policy, refs, n, frames);
      && |s.stats| == |ValidPages(refs[..n])|
      && forall k :: 0 <= k < |s.stats| ==> s.stats[k].page == ValidPages(refs[..n])[k]
  {
    RunCounts(policy, refs, n, frames);
    if n > 0 {
      RunRecordsValidPages(policy, refs, n - 1, frames);
      PrefixStep(refs, n);
    }
  }

  /** Every page in snapshot `k` is a valid reference seen at or before step `k`. */
  lemma SnapshotsHoldSeenPages(policy: Policy, refs: seq<Ref>, n: nat, frames: int)
    requires frames >= 1 && n <= |refs|
    ensures var s := Run(policy, refs, n, frames);
      && |s.stats| == |ValidPages(refs[..n])|
      && forall k, y :: 0 <= k < |s.stats| && y in s.stats[k].memory ==> y in ValidPages(refs[..n])[..k + 1]
  {
    var s := Run(policy, refs, n, frames);
    RunSteps(policy, refs, n, frames);
    RunRecordsValidPages(policy, refs, n, frames);
    var pages := ValidPages(refs[..n]);
    forall k | 0 <= k < |s.stats| ensures forall y :: y in s.stats[k].memory ==> y in pages[..k + 1] {
      SeenUpTo(s.stats, pages, frames, k);
    }
  }

  lemma {:induction false} SeenUpTo(stats: seq<Step>, pages: seq<int>, frames: int, k: nat)
    requires k < |stats| == |pages|
    requires forall i :: 0 <= i < |stats| ==> stats[i].page == pages[i]
    requires forall i :: 0 <= i < |stats| ==> StepAt(stats, i, frames)
    ensures forall y :: y in stats[k].memory ==> y in pages[..k + 1]
  {
    assert StepAt(stats, k, frames);
    if k > 0 {
      SeenUpTo(stats, pages, frames, k - 1);
      assert pages[..k + 1] == pages[..k] + [pages[k]];
    }
  }

  /** Snapshots never shrink: once the resident set holds `frames` pages it
    * holds exactly `frames` pages at every later step. */
  lemma SnapshotsNeverShrink(policy: Policy, refs: seq<Ref>, n: nat, frames: int)
    requires frames >= 1 && n <= |refs|
    ensures var s := Run(policy, refs, n, frames);
      forall i, j :: 0 <= i <= j < |s.stats| ==> |s.stats[i].memory| <= |s.stats[j].memory| <= frames
  {
    var s := Run(policy, refs, n, frames);
    RunSteps(policy, refs, n, frames);
    forall i, j | 0 <= i <= j < |s.stats| ensures |s.stats[i].memory| <= |s.stats[j].memory| {
      Grows(s.stats, frames, i, j);
    }
  }

  lemma {:induction false} Grows(stats: seq<Step>, frames: int, i: nat, j: nat)
    requires i <= j < |stats|
    requires forall k :: 0 <= k < |stats| ==> StepAt(stats, k, frames)
    ensures |stats[i].memory| <= |stats[j].memory|
    decreases j - i
  {
    if i < j {
      Grows(stats, frames, i, j - 1);
      assert StepAt(stats, j, frames);
    }
  }
}
