// The reference string `1,2,3,2,1,4,5` with three frames, replayed under
// each policy one reference at a time: every policy ends with 5 faults and
// 2 hits, holding [3,4,5] (FIFO), [1,4,5] (LRU) and [1,2,5] (Optimal).

module Examples {
  import opened Pages
  import opened Replacement

  /** The reference string `1,2,3,2,1,4,5`, entry by entry. */
  ghost predicate IsExample(refs: seq<Ref>)
  {
    && |refs| == 7
    && refs[0] == Valid(1) && refs[1] == Valid(2) && refs[2] == Valid(3) && refs[3] == Valid(2)
    && refs[4] == Valid(1) && refs[5] == Valid(4) && refs[6] == Valid(5)
  }

  /** One step of a run, stated on the projections of the state it starts from. */
  lemma StepTo(policy: Policy, refs: seq<Ref>, n: nat, frames: int,
               memory: seq<int>, faults: nat, hits: nat, page: int, after: seq<int>)
    requires frames >= 1 && 0 < n <= |refs| && refs[n - 1] == Valid(page)
    requires var s := Run(policy, refs, n - 1, frames);
      s.memory == memory && s.faults == faults && s.hits == hits && |s.stats| == n - 1
    requires Next(policy, memory, frames, page, refs[n..]) == after
    ensures var s := Run(policy, refs, n, frames);
      && s.memory == after && |s.stats| == n && s.stats[n - 1].memory == after
      && s.faults == faults + (if page in memory then 0 else 1)
      && s.hits == hits + (if page in memory then 1 else 0)
  {
  }

  // The FIFO run, one reference at a time.

  lemma FifoExample1(refs: seq<Ref>)
    requires IsExample(refs)
    ensures var s := Run(FIFO, refs, 1, 3);
      s.memory == [1] && s.faults == 1 && s.hits == 0 && |s.stats| == 1 && s.stats[0].memory == [1]
  {
    assert FifoNext([], 3, 1) == [1];
    StepTo(FIFO, refs, 1, 3, [], 0, 0, 1, [1]);
  }

  lemma FifoExample2(refs: seq<Ref>)
    requires IsExample(refs)
    ensures var s := Run(FIFO, refs, 2, 3);
      s.memory == [1, 2] && s.faults == 2 && s.hits == 0 && |s.stats| == 2 && s.stats[1].memory == [1, 2]
  {
    FifoExample1(refs);
    assert FifoNext([1], 3, 2) == [1, 2];
    StepTo(FIFO, refs, 2, 3, [1], 1, 0, 2, [1, 2]);
  }

  lemma FifoExample3(refs: seq<Ref>)
    requires IsExample(refs)
    ensures var s := Run(FIFO, refs, 3, 3);
      s.memory == [1, 2, 3] && s.faults == 3 && s.hits == 0 && |s.stats| == 3 && s.stats[2].memory == [1, 2, 3]
  {
    FifoExample2(refs);
    assert FifoNext([1, 2], 3, 3) == [1, 2, 3];
    StepTo(FIFO, refs, 3, 3, [1, 2], 2, 0, 3, [1, 2, 3]);
  }

  lemma FifoExample4(refs: seq<Ref>)
    requires IsExample(refs)
    ensures var s := Run(FIFO, refs, 4, 3);
      s.memory == [1, 2, 3] && s.faults == 3 && s.hits == 1 && |s.stats| == 4 && s.stats[3].memory == [1, 2, 3]
  {
    FifoExample3(refs);
    assert FifoNext([1, 2, 3], 3, 2) == [1, 2, 3];
    StepTo(FIFO, refs, 4, 3, [1, 2, 3], 3, 0, 2, [1, 2, 3]);
  }

  lemma FifoExample5(refs: seq<Ref>)
    requires IsExample(refs)
    ensures var s := Run(FIFO, refs, 5, 3);
      s.memory == [1, 2, 3] && s.faults == 3 && s.hits == 2 && |s.stats| == 5 && s.stats[4].memory == [1, 2, 3]
  {
    FifoExample4(refs);
    assert FifoNext([1, 2, 3], 3, 1) == [1, 2, 3];
    StepTo(FIFO, refs, 5, 3, [1, 2, 3], 3, 1, 1, [1, 2, 3]);
  }

  lemma FifoExample6(refs: seq<Ref>)
    requires IsExample(refs)
    ensures var s := Run(FIFO, refs, 6, 3);
      s.memory == [2, 3, 4] && s.faults == 4 && s.hits == 2 && |s.stats| == 6 && s.stats[5].memory == [2, 3, 4]
  {
    FifoExample5(refs);
    assert FifoNext([1, 2, 3], 3, 4) == [2, 3, 4];
    StepTo(FIFO, refs, 6, 3, [1, 2, 3], 3, 2, 4, [2, 3, 4]);
  }

  lemma FifoExample7(refs: seq<Ref>)
    requires IsExample(refs)
    ensures var s := Run(FIFO, refs, 7, 3);
      s.memory == [3, 4, 5] && s.faults == 5 && s.hits == 2 && |s.stats| == 7 && s.stats[6].memory == [3, 4, 5]
  {
    FifoExample6(refs);
    assert FifoNext([2, 3, 4], 3, 5) == [3, 4, 5];
    StepTo(FIFO, refs, 7, 3, [2, 3, 4], 4, 2, 5, [3, 4, 5]);
  }

  /** FIFO: after faults on 1, 2, 3 and hits on 2 and 1, 4 evicts the oldest
    * page 1 and 5 evicts 2. */
  lemma FifoExample(refs: seq<Ref>)
    requires IsExample(refs)
    ensures var o := Simulation(FIFO, refs, 3);
      o.faults == 5 && o.hits == 2 && |o.stats| == 7 && o.stats[6].memory == [3, 4, 5]
  {
    FifoExample7(refs);
  }

  /** The two LRU hits of the example: the page leaves its place and goes
    * to the back. */
  lemma LruExampleHits()
    ensures LruNext([1, 2, 3], 3, 2) == [1, 3, 2]
    ensures LruNext([1, 3, 2], 3, 1) == [3, 2, 1]
  {
    assert Remove([1, 2, 3], 2) == [1, 3];
    assert Remove([1, 3, 2], 1) == [3, 2];
  }

  // The LRU run, one reference at a time.

  lemma LruExample1(refs: seq<Ref>)
    requires IsExample(refs)
    ensures var s := Run(LRU, refs, 1, 3);
      s.memory == [1] && s.faults == 1 && s.hits == 0 && |s.stats| == 1 && s.stats[0].memory == [1]
  {
    assert LruNext([], 3, 1) == [1];
    StepTo(LRU, refs, 1, 3, [], 0, 0, 1, [1]);
  }

  lemma LruExample2(refs: seq<Ref>)
    requires IsExample(refs)
    ensures var s := Run(LRU, refs, 2, 3);
      s.memory == [1, 2] && s.faults == 2 && s.hits == 0 && |s.stats| == 2 && s.stats[1].memory == [1, 2]
  {
    LruExample1(refs);
    assert LruNext([1], 3, 2) == [1, 2];
    StepTo(LRU, refs, 2, 3, [1], 1, 0, 2, [1, 2]);
  }

  lemma LruExample3(refs: seq<Ref>)
    requires IsExample(refs)
    ensures var s := Run(LRU, refs, 3, 3);
      s.memory == [1, 2, 3] && s.faults == 3 && s.hits == 0 && |s.stats| == 3 && s.stats[2].memory == [1, 2, 3]
  {
    LruExample2(refs);
    assert LruNext([1, 2], 3, 3) == [1, 2, 3];
    StepTo(LRU, refs, 3, 3, [1, 2], 2, 0, 3, [1, 2, 3]);
  }

  lemma LruExample4(refs: seq<Ref>)
    requires IsExample(refs)
    ensures var s := Run(LRU, refs, 4, 3);
      s.memory == [1, 3, 2] && s.faults == 3 && s.hits == 1 && |s.stats| == 4 && s.stats[3].memory == [1, 3, 2]
  {
    LruExample3(refs);
    LruExampleHits();
    StepTo(LRU, refs, 4, 3, [1, 2, 3], 3, 0, 2, [1, 3, 2]);
  }

  lemma LruExample5(refs: seq<Ref>)
    requires IsExample(refs)
    ensures var s := Run(LRU, refs, 5, 3);
      s.memory == [3, 2, 1] && s.faults == 3 && s.hits == 2 && |s.stats| == 5 && s.stats[4].memory == [3, 2, 1]
  {
    LruExample4(refs);
    LruExampleHits();
    StepTo(LRU, refs, 5, 3, [1, 3, 2], 3, 1, 1, [3, 2, 1]);
  }

  lemma LruExample6(refs: seq<Ref>)
    requires IsExample(refs)
    ensures var s := Run(LRU, refs, 6, 3);
      s.memory == [2, 1, 4] && s.faults == 4 && s.hits == 2 && |s.stats| == 6 && s.stats[5].memory == [2, 1, 4]
  {
    LruExample5(refs);
    assert LruNext([3, 2, 1], 3, 4) == [2, 1, 4];
    StepTo(LRU, refs, 6, 3, [3, 2, 1], 3, 2, 4, [2, 1, 4]);
  }

  lemma LruExample7(refs: seq<Ref>)
    requires IsExample(refs)
    ensures var s := Run(LRU, refs, 7, 3);
      s.memory == [1, 4, 5] && s.faults == 5 && s.hits == 2 && |s.stats| == 7 && s.stats[6].memory == [1, 4, 5]
  {
    LruExample6(refs);
    assert LruNext([2, 1, 4], 3, 5) == [1, 4, 5];
    StepTo(LRU, refs, 7, 3, [2, 1, 4], 4, 2, 5, [1, 4, 5]);
  }

  /** LRU: the hit on 2 turns `[1,2,3]` into `[1,3,2]`, the hit on 1 gives
    * `[3,2,1]`; 4 then evicts the least recently used page 3 and 5 evicts 2. */
  lemma LruExample(refs: seq<Ref>)
    requires IsExample(refs)
    ensures var o := Simulation(LRU, refs, 3);
      o.faults == 5 && o.hits == 2 && |o.stats| == 7 && o.stats[6].memory == [1, 4, 5]
    ensures Run(LRU, refs, 4, 3).memory == [1, 3, 2]
  {
    LruExample4(refs);
    LruExample7(refs);
  }

  /** What follows the last two references of the example. */
  lemma ExampleTail(refs: seq<Ref>)
    requires IsExample(refs)
    ensures refs[6..] == [Valid(5)] && refs[7..] == []
  {
  }

  /** The first Optimal eviction of the example: with only 5 still to come,
    * 1, 2 and 3 tie at "never used again" and the last of them, 3, leaves. */
  lemma OptimalEvictsThree()
    ensures Victim([1, 2, 3], [Valid(5)]) == 3
    ensures OptimalNext([1, 2, 3], 3, 4, [Valid(5)]) == [1, 2, 4]
  {
    assert NextUse(1, [Valid(5)]) == NextUse(2, [Valid(5)]) == NextUse(3, [Valid(5)]) == 1;
  }

  /** The second: nothing is left to come, every resident ties and the last
    * one, 4, leaves. */
  lemma OptimalEvictsFour()
    ensures Victim([1, 2, 4], []) == 4
    ensures OptimalNext([1, 2, 4], 3, 5, []) == [1, 2, 5]
  {
  }

  // The Optimal run, one reference at a time.

  lemma OptimalExample1(refs: seq<Ref>)
    requires IsExample(refs)
    ensures var s := Run(OPTIMAL, refs, 1, 3);
      s.memory == [1] && s.faults == 1 && s.hits == 0 && |s.stats| == 1 && s.stats[0].memory == [1]
  {
    assert OptimalNext([], 3, 1, refs[1..]) == [1];
    StepTo(OPTIMAL, refs, 1, 3, [], 0, 0, 1, [1]);
  }

  lemma OptimalExample2(refs: seq<Ref>)
    requires IsExample(refs)
    ensures var s := Run(OPTIMAL, refs, 2, 3);
      s.memory == [1, 2] && s.faults == 2 && s.hits == 0 && |s.stats| == 2 && s.stats[1].memory == [1, 2]
  {
    OptimalExample1(refs);
    assert OptimalNext([1], 3, 2, refs[2..]) == [1, 2];
    StepTo(OPTIMAL, refs, 2, 3, [1], 1, 0, 2, [1, 2]);
  }

  lemma OptimalExample3(refs: seq<Ref>)
    requires IsExample(refs)
    ensures var s := Run(OPTIMAL, refs, 3, 3);
      s.memory == [1, 2, 3] && s.faults == 3 && s.hits == 0 && |s.stats| == 3 && s.stats[2].memory == [1, 2, 3]
  {
    OptimalExample2(refs);
    assert OptimalNext([1, 2], 3, 3, refs[3..]) == [1, 2, 3];
    StepTo(OPTIMAL, refs, 3, 3, [1, 2], 2, 0, 3, [1, 2, 3]);
  }

  lemma OptimalExample4(refs: seq<Ref>)
    requires IsExample(refs)
    ensures var s := Run(OPTIMAL, refs, 4, 3);
      s.memory == [1, 2, 3] && s.faults == 3 && s.hits == 1 && |s.stats| == 4 && s.stats[3].memory == [1, 2, 3]
  {
    OptimalExample3(refs);
    assert OptimalNext([1, 2, 3], 3, 2, refs[4..]) == [1, 2, 3];
    StepTo(OPTIMAL, refs, 4, 3, [1, 2, 3], 3, 0, 2, [1, 2, 3]);
  }

  lemma OptimalExample5(refs: seq<Ref>)
    requires IsExample(refs)
    ensures var s := Run(OPTIMAL, refs, 5, 3);
      s.memory == [1, 2, 3] && s.faults == 3 && s.hits == 2 && |s.stats| == 5 && s.stats[4].memory == [1, 2, 3]
  {
    OptimalExample4(refs);
    assert OptimalNext([1, 2, 3], 3, 1, refs[5..]) == [1, 2, 3];
    StepTo(OPTIMAL, refs, 5, 3, [1, 2, 3], 3, 1, 1, [1, 2, 3]);
  }

  lemma OptimalExample6(refs: seq<Ref>)
    requires IsExample(refs)
    ensures var s := Run(OPTIMAL, refs, 6, 3);
      s.memory == [1, 2, 4] && s.faults == 4 && s.hits == 2 && |s.stats| == 6 && s.stats[5].memory == [1, 2, 4]
  {
    OptimalExample5(refs);
    OptimalEvictsThree();
    ExampleTail(refs);
    StepTo(OPTIMAL, refs, 6, 3, [1, 2, 3], 3, 2, 4, [1, 2, 4]);
  }

  lemma OptimalExample7(refs: seq<Ref>)
    requires IsExample(refs)
    ensures var s := Run(OPTIMAL, refs, 7, 3);
      s.memory == [1, 2, 5] && s.faults == 5 && s.hits == 2 && |s.stats| == 7 && s.stats[6].memory == [1, 2, 5]
  {
    OptimalExample6(refs);
    OptimalEvictsFour();
    ExampleTail(refs);
    StepTo(OPTIMAL, refs, 7, 3, [1, 2, 4], 4, 2, 5, [1, 2, 5]);
  }

  /** Optimal: at page 4 none of 1, 2, 3 is used again and the fold hands the
    * tie to the last of them, 3; at page 5 it is again the last resident, 4. */
  lemma OptimalExample(refs: seq<Ref>)
    requires IsExample(refs)
    ensures var o := Simulation(OPTIMAL, refs, 3);
      o.faults == 5 && o.hits == 2 && |o.stats| == 7 && o.stats[6].memory == [1, 2, 5]
    ensures Run(OPTIMAL, refs, 6, 3).memory == [1, 2, 4]
  {
    OptimalExample6(refs);
    OptimalExample7(refs);
  }
}
