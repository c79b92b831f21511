// The replacement rules of src/Simulator.jsx as pure step functions, and
// the run of a whole reference string as a fold of those steps. The three
// imperative loops of the source are proved equal to `Run` in module
// Simulator; what `Run` guarantees is proved in modules Trace and Policies.

module Replacement {
  import opened Pages

  datatype Policy = FIFO | LRU | OPTIMAL

  /** FIFO step: a hit changes nothing; a fault on a full set shifts out the
    * front (oldest) page, then the new page is pushed at the back. */
  function FifoNext(memory: seq<int>, frames: int, page: int): seq<int>
    requires frames >= 1
  {
    if page in memory then memory
    else (if |memory| >= frames then memory[1..] else memory) + [page]
  }

  /** LRU step: a hit moves the page to the back
    * (`memory.filter(p => p !== page).concat(page)`); a fault is the FIFO fault. */
  function LruNext(memory: seq<int>, frames: int, page: int): seq<int>
    requires frames >= 1
  {
    if page in memory then Remove(memory, page) + [page]
    else FifoNext(memory, frames, page)
  }

  /** `future.indexOf(x)`, with an absent page mapped to `|future|`: every
    * index found is below `|future|`, so `|future|` plays the part of the
    * source's `Infinity` in the strict comparison of the victim fold. */
  function NextUse(x: int, future: seq<Ref>): (d: nat)
    ensures d <= |future|
    ensures d < |future| ==> future[d] == Valid(x)
    ensures forall j :: 0 <= j < d ==> future[j] != Valid(x)
  {
    if future == [] then 0
    else if future[0] == Valid(x) then 0
    else 1 + NextUse(x, future[1..])
  }

  /** The callback of the victim `reduce`: keep the accumulator only when its
    * next use is strictly farther than the candidate's. */
  function Farther(acc: int, candidate: int, future: seq<Ref>): int
  {
    if NextUse(acc, future) > NextUse(candidate, future) then acc else candidate
  }

  /** The left fold of `Farther` over `rest`, starting from `acc`. */
  function Reduce(acc: int, rest: seq<int>, future: seq<Ref>): (v: int)
    ensures v == acc || v in rest
    ensures NextUse(acc, future) <= NextUse(v, future)
    ensures forall x :: x in rest ==> NextUse(x, future) <= NextUse(v, future)
    decreases |rest|
  {
    if rest == [] then acc
    else Reduce(Farther(acc, rest[0], future), rest[1..], future)
  }

  /** `memory.reduce(...)` without an initial value: the page to evict. */
  function Victim(memory: seq<int>, future: seq<Ref>): int
    requires |memory| > 0
  {
    Reduce(memory[0], memory[1..], future)
  }

  /** Optimal step: a hit changes nothing; a fault on a full set filters out
    * the victim, then the new page is pushed at the back. */
  function OptimalNext(memory: seq<int>, frames: int, page: int, future: seq<Ref>): seq<int>
    requires frames >= 1
  {
    if page in memory then memory
    else (if |memory| >= frames then Remove(memory, Victim(memory, future)) else memory) + [page]
  }

  /** The resident set after one valid reference; `future` is what follows it
    * in the reference string (only Optimal looks at it). */
  function Next(policy: Policy, memory: seq<int>, frames: int, page: int, future: seq<Ref>): seq<int>
    requires frames >= 1
  {
    match policy
    case FIFO => FifoNext(memory, frames, page)
    case LRU => LruNext(memory, frames, page)
    case OPTIMAL => OptimalNext(memory, frames, page, future)
  }

  /** The local variables of a policy function: `memory`, `faults`, `hits`, `stats`. */
  datatype State = State(memory: seq<int>, faults: nat, hits: nat, stats: seq<Step>)

  /** One iteration of a policy loop: an invalid reference is skipped; a
    * valid one counts a hit or a fault, updates the resident set and records
    * a copy of it. */
  function Advance(policy: Policy, s: State, ref: Ref, future: seq<Ref>, frames: int): State
    requires frames >= 1
  {
    match ref
    case Invalid => s
    case Valid(page) =>
      var memory := Next(policy, s.memory, frames, page, future);
      if page in s.memory then State(memory, s.faults, s.hits + 1, s.stats + [Step(page, memory, false)])
      else State(memory, s.faults + 1, s.hits, s.stats + [Step(page, memory, true)])
  }

  /** The state after the loop has consumed `refs[..n]`. */
  function Run(policy: Policy, refs: seq<Ref>, n: nat, frames: int): State
    requires frames >= 1 && n <= |refs|
  {
    if n == 0 then State([], 0, 0, [])
    else Advance(policy, Run(policy, refs, n - 1, frames), refs[n - 1], refs[n..], frames)
  }

  /** The `{faults, hits, stats}` record one policy returns for a whole reference string. */
  function Simulation(policy: Policy, refs: seq<Ref>, frames: int): Outcome
    requires frames >= 1
  {
    var s := Run(policy, refs, |refs|, frames);
    Outcome(s.faults, s.hits, s.stats)
  }

  // ---------------------------------------------------------------------
  // Step rules

  /** A resident set the engine can hold: at most `frames` pages, none twice. */
  ghost predicate Resident(memory: seq<int>, frames: int)
  {
    NoDup(memory) && |memory| <= frames
  }

  /** `k` is the last index of `memory` whose next use is the farthest. */
  ghost predicate IsLastFarthest(memory: seq<int>, future: seq<Ref>, k: int)
  {
    0 <= k < |memory| &&
    (forall j :: 0 <= j < |memory| ==> NextUse(memory[j], future) <= NextUse(memory[k], future)) &&
    (forall j :: k < j < |memory| ==> NextUse(memory[j], future) < NextUse(memory[k], future))
  }

  /** Where the fold of `rest` from `acc` ends: -1 for `acc` itself, else
    * the index in `rest` of the page it returns. */
  ghost function FoldPosition(acc: int, rest: seq<int>, future: seq<Ref>): int
    decreases |rest|
  {
    if rest == [] then -1
    else
      var p := FoldPosition(Farther(acc, rest[0], future), rest[1..], future);
      if p >= 0 then p + 1
      else if NextUse(acc, future) > NextUse(rest[0], future) then -1
      else 0
  }

  /** The fold ends on `acc` or on `rest[k]`, and every page after that
    * position has a strictly nearer next use. */
  lemma {:induction false} ReduceKeepsLastFarthest(acc: int, rest: seq<int>, future: seq<Ref>)
    ensures LastFarthestFrom(acc, rest, future, FoldPosition(acc, rest, future), Reduce(acc, rest, future))
    decreases |rest|
  {
    if rest != [] {
      var v := Reduce(acc, rest, future);
      var a := Farther(acc, rest[0], future);
      var k := FoldPosition(a, rest[1..], future);
      assert v == Reduce(a, rest[1..], future);
      ReduceKeepsLastFarthest(a, rest[1..], future);
      BelowAfterShift(rest, k, NextUse(v, future), future);
      if k >= 0 {
        assert v == rest[1..][k] == rest[k + 1];
      }
    }
  }

  /** `v` is `acc` (when `k == -1`) or `rest[k]`, and every page of `rest`
    * after position `k` is next used strictly sooner than `v`. */
  ghost predicate LastFarthestFrom(acc: int, rest: seq<int>, future: seq<Ref>, k: int, v: int)
  {
    && -1 <= k < |rest|
    && v == (if k == -1 then acc else rest[k])
    && forall j :: k < j < |rest| ==> NextUse(rest[j], future) < NextUse(v, future)
  }

  /** A bound on the next uses of `rest[1..]` past index `k` is one on those of
    * `rest` past index `k + 1`. */
  lemma BelowAfterShift(rest: seq<int>, k: int, bound: nat, future: seq<Ref>)
    requires rest != [] && -1 <= k
    requires forall j :: k < j < |rest[1..]| ==> NextUse(rest[1..][j], future) < bound
    ensures forall j :: k + 1 < j < |rest| ==> NextUse(rest[j], future) < bound
  {
    forall j | k + 1 < j < |rest| ensures NextUse(rest[j], future) < bound {
      assert rest[j] == rest[1..][j - 1];
    }
  }

  /** The fold evicts the LAST resident whose next use is the farthest:
    * `aIndex > bIndex ? a : b` hands every tie to the later page. */
  lemma VictimIsLastFarthest(memory: seq<int>, future: seq<Ref>)
    requires |memory| > 0
    ensures exists k :: IsLastFarthest(memory, future, k) && memory[k] == Victim(memory, future)
  {
    var v := Victim(memory, future);
    var rest := memory[1..];
    ReduceKeepsLastFarthest(memory[0], rest, future);
    var k := FoldPosition(memory[0], rest, future);
    forall j | 0 <= j < |memory| ensures NextUse(memory[j], future) <= NextUse(v, future) {
      if j > 0 { assert memory[j] == rest[j - 1]; }
    }
    forall j | k + 1 < j < |memory| ensures NextUse(memory[j], future) < NextUse(v, future) {
      assert memory[j] == rest[j - 1];
    }
    assert IsLastFarthest(memory, future, k + 1);
  }

  /** What every policy's step guarantees: the bound and duplicate-freedom
    * are kept, the page ends up resident, a fault appends it, a fault below
    * capacity evicts nothing, a hit keeps the same residents, the set never
    * shrinks, and nothing but the new page enters. */
  lemma StepKeepsResidentSet(policy: Policy, memory: seq<int>, frames: int, page: int, future: seq<Ref>)
    requires frames >= 1 && Resident(memory, frames)
    ensures var r := Next(policy, memory, frames, page, future);
      && Resident(r, frames)
      && page in r
      && |memory| <= |r|
      && (forall y :: y in r ==> y in memory || y == page)
      && (page !in memory ==> r[|r| - 1] == page)
      && (page !in memory && |memory| < frames ==> r == memory + [page])
      && (page in memory ==> multiset(r) == multiset(memory))
  {
    if page in memory {
      HitKeepsResidents(policy, memory, frames, page, future);
    } else if |memory| < frames {
      NoDupAppend(memory, page);
    } else {
      FaultAtCapacity(policy, memory, frames, page, future);
    }
  }

  lemma HitKeepsResidents(policy: Policy, memory: seq<int>, frames: int, page: int, future: seq<Ref>)
    requires frames >= 1 && Resident(memory, frames) && page in memory
    ensures var r := Next(policy, memory, frames, page, future);
      Resident(r, frames) && |r| == |memory| && multiset(r) == multiset(memory)
  {
    if policy == LRU {
      var k :| 0 <= k < |memory| && memory[k] == page;
      LruHitPermutes(memory, frames, k);
    }
  }

  /** An LRU hit reorders the resident set and changes nothing else. */
  lemma LruHitPermutes(memory: seq<int>, frames: int, k: nat)
    requires frames >= 1 && NoDup(memory) && k < |memory|
    ensures var r := LruNext(memory, frames, memory[k]);
      NoDup(r) && |r| == |memory| && multiset(r) == multiset(memory)
  {
    var page, pre, post := memory[k], memory[..k], memory[k + 1..];
    LruHitMovesToBack(memory, frames, k);
    NoDupRemove(memory, page);
    NoDupAppend(Remove(memory, page), page);
    assert memory == pre + [page] + post;
    assert multiset(pre + [page] + post) == multiset(pre) + multiset{page} + multiset(post);
  }

  lemma FaultAtCapacity(policy: Policy, memory: seq<int>, frames: int, page: int, future: seq<Ref>)
    requires frames >= 1 && Resident(memory, frames) && page !in memory && |memory| == frames
    ensures var r := Next(policy, memory, frames, page, future);
      Resident(r, frames) && |r| == frames && r[|r| - 1] == page &&
      forall y :: y in r ==> y in memory || y == page
  {
    var r := Next(policy, memory, frames, page, future);
    var kept := if policy == OPTIMAL then Remove(memory, Victim(memory, future)) else memory[1..];
    assert r == kept + [page];
    if policy == OPTIMAL {
      NoDupRemove(memory, Victim(memory, future));
    } else {
      assert memory == [memory[0]] + kept;
    }
    NoDupAppend(kept, page);
  }

  /** LRU hit: the page leaves its position and is appended; every other
    * page keeps its relative order. */
  lemma LruHitMovesToBack(memory: seq<int>, frames: int, k: nat)
    requires frames >= 1 && NoDup(memory) && k < |memory|
    ensures LruNext(memory, frames, memory[k]) == memory[..k] + memory[k + 1..] + [memory[k]]
  {
    RemoveAt(memory, k);
  }

  /** Optimal fault on a full set: exactly one resident leaves, the last one
    * whose next use in `future` is the farthest; the rest keep their order
    * and the page is appended. */
  lemma OptimalFaultEvictsLastFarthest(memory: seq<int>, frames: int, page: int, future: seq<Ref>)
    requires frames >= 1 && NoDup(memory) && |memory| >= frames && page !in memory
    ensures exists k ::
      && IsLastFarthest(memory, future, k)
      && OptimalNext(memory, frames, page, future) == memory[..k] + memory[k + 1..] + [page]
  {
    VictimIsLastFarthest(memory, future);
    var k :| IsLastFarthest(memory, future, k) && memory[k] == Victim(memory, future);
    EvictAt(memory, frames, page, future, k);
  }

  lemma EvictAt(memory: seq<int>, frames: int, page: int, future: seq<Ref>, k: nat)
    requires frames >= 1 && NoDup(memory) && |memory| >= frames && page !in memory
    requires k < |memory| && memory[k] == Victim(memory, future)
    ensures OptimalNext(memory, frames, page, future) == memory[..k] + memory[k + 1..] + [page]
  {
    RemoveAt(memory, k);
  }
}
