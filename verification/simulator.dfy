// The three policy functions of src/Simulator.jsx as they are written: one
// loop each over the reference string, updating `memory`, `faults`, `hits`
// and `stats` step by step. Each is proved to compute `Simulation` of its
// policy, so every lemma about `Run` applies to what it returns.

module Simulator {
  import opened Pages
  import opened Replacement
  import Trace

  method Fifo(references: seq<Ref>, frames: int) returns (result: Outcome)
    requires frames >= 1
    ensures result == Simulation(FIFO, references, frames)
    ensures result.hits + result.faults == |result.stats| == |ValidPages(references)|
  {
    var memory: seq<int> := [];
    var faults: nat, hits: nat := 0, 0;
    var stats: seq<Step> := [];
    for i := 0 to |references|
      invariant Run(FIFO, references, i, frames) == State(memory, faults, hits, stats)
    {
      if references[i].Invalid? {
        continue;
      }
      var page := references[i].page;
      if page !in memory {
        if |memory| >= frames {
          memory := memory[1..];
        }
        memory := memory + [page];
        faults := faults + 1;
        stats := stats + [Step(page, memory, true)];
      } else {
        hits := hits + 1;
        stats := stats + [Step(page, memory, false)];
      }
    }
    assert references[..|references|] == references;
    Trace.RunCounts(FIFO, references, |references|, frames);
    result := Outcome(faults, hits, stats);
  }

  method Lru(references: seq<Ref>, frames: int) returns (result: Outcome)
    requires frames >= 1
    ensures result == Simulation(LRU, references, frames)
    ensures result.hits + result.faults == |result.stats| == |ValidPages(references)|
  {
    var memory: seq<int> := [];
    var faults: nat, hits: nat := 0, 0;
    var stats: seq<Step> := [];
    for i := 0 to |references|
      invariant Run(LRU, references, i, frames) == State(memory, faults, hits, stats)
    {
      if references[i].Invalid? {
        continue;
      }
      var page := references[i].page;
      if page !in memory {
        if |memory| >= frames {
          memory := memory[1..];
        }
        memory := memory + [page];
        faults := faults + 1;
        stats := stats + [Step(page, memory, true)];
      } else {
        memory := Remove(memory, page) + [page];
        hits := hits + 1;
        stats := stats + [Step(page, memory, false)];
      }
    }
    assert references[..|references|] == references;
    Trace.RunCounts(LRU, references, |references|, frames);
    result := Outcome(faults, hits, stats);
  }

  method Optimal(references: seq<Ref>, frames: int) returns (result: Outcome)
    requires frames >= 1
    ensures result == Simulation(OPTIMAL, references, frames)
    ensures result.hits + result.faults == |result.stats| == |ValidPages(references)|
  {
    var memory: seq<int> := [];
    var faults: nat, hits: nat := 0, 0;
    var stats: seq<Step> := [];
    for i := 0 to |references|
      invariant Run(OPTIMAL, references, i, frames) == State(memory, faults, hits, stats)
    {
      if references[i].Invalid? {
        continue;
      }
      var page := references[i].page;
      if page !in memory {
        if |memory| >= frames {
          var future := references[i + 1..];
          var toRemove := Victim(memory, future);
          memory := Remove(memory, toRemove);
        }
        memory := memory + [page];
        faults := faults + 1;
        stats := stats + [Step(page, memory, true)];
      } else {
        hits := hits + 1;
        stats := stats + [Step(page, memory, false)];
      }
    }
    assert references[..|references|] == references;
    Trace.RunCounts(OPTIMAL, references, |references|, frames);
    result := Outcome(faults, hits, stats);
  }

  /** The three results the `Simulator` component hands to its caller. */
  datatype Results = Results(fifo: Outcome, lru: Outcome, optimal: Outcome)

  /** The component's guard: the engine runs only when `frames` is truthy and
    * the reference string is non-empty; otherwise the caller receives `{}`
    * (`None`). A falsy `frames` (0 or NaN) is represented by 0; the input
    * form never produces anything below 1 otherwise. */
  function Simulate(frames: nat, references: seq<Ref>): (r: Option<Results>)
    ensures r.Some? <==> frames >= 1 && |references| > 0
    ensures r.Some? ==> forall o :: o in [r.value.fifo, r.value.lru, r.value.optimal] ==>
      o.hits + o.faults == |o.stats| == |ValidPages(references)|
  {
    if frames >= 1 && |references| > 0 then
      assert references[..|references|] == references;
      Trace.RunCounts(FIFO, references, |references|, frames);
      Trace.RunCounts(LRU, references, |references|, frames);
      Trace.RunCounts(OPTIMAL, references, |references|, frames);
      Some(Results(Simulation(FIFO, references, frames),
                   Simulation(LRU, references, frames),
                   Simulation(OPTIMAL, references, frames)))
    else None
  }

  datatype Option<T> = None | Some(value: T)
}
