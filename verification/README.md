# Page-replacement engine

This project models the replacement engine of a page-replacement teaching simulator, `src/Simulator.jsx`. The engine has three policies, `fifo`, `lru` and `optimal`. Each one takes a reference string and a frame count and walks the string once. It keeps a resident set `memory`, counts `faults` and `hits`, and records one `{page, memory, fault}` snapshot in `stats` per valid reference. The `Simulator` component runs all three policies, but only when `frames` is truthy and the reference string is non-empty.

Layout:

- `pages.dfy` (module `Pages`) defines the shared pieces:
  - a reference is `Valid(page)` or `Invalid`; `Invalid` stands for every entry the engine skips (not a number, or NaN);
  - the `Step` snapshot and the `Outcome` result record;
  - `Remove`, which models `filter(p => p !== x)`, with its lemmas.
- `replacement.dfy` (module `Replacement`) defines one pure step function per policy: `FifoNext`, `LruNext` and `OptimalNext`.
  - Optimal's victim is the `reduce` fold of lines 67–73, modelled as `Victim`, `Reduce` and `NextUse`.
  - `Run(policy, refs, n, frames)` is the state the loop holds after `refs[..n]`.
  - The module also holds the step rules, stated once for all three policies.
- `simulator.dfy` (module `Simulator`) defines the three policies as methods, each a loop over the references that updates `memory`, `faults`, `hits` and `stats` as the source does. Each method is proved to return `Simulation(policy, references, frames)`. The module also holds the component's guard, `Simulate`.
- `trace.dfy` (module `Trace`) holds what every run records, whatever the policy:
  - the counters;
  - the rules each snapshot obeys against the previous one;
  - where snapshot pages come from.
- `policies.dfy` (module `Policies`) holds facts about whole runs:
  - FIFO holds the last `frames` faulting pages;
  - LRU holds the `frames` most recently used distinct pages;
  - dropping invalid entries changes no result.
- `example.dfy` (module `Examples`) replays the reference string `1,2,3,2,1,4,5` with three frames under each policy.

Modelling choices:

- **Pages are `int`.** The engine only compares pages with `includes`, `===`, `!==` and `indexOf`, all on numbers.
- **Absent pages in Optimal.** `NextUse` gives a page that never occurs again the distance `|future|`, where the source uses `Infinity`. Every distance actually found is smaller than `|future|`. Two absent pages compare equal under `>`, as two `Infinity` values do.
- **Optimal's tie-break.** `aIndex > bIndex ? a : b` keeps the accumulator only when it is *strictly* farther. On a tie the fold moves on to the later page, so among the residents with the farthest next use, the **last** one in `memory` order is evicted. The model follows this code. A reading in which the first resident wins ties is not what the code does. On the example, the code ends Optimal at `[1,2,5]` (`Examples.OptimalExample`); the first-wins reading would end at `[3,4,5]`.
- **`frames >= 1` is a precondition of every policy.** The input form clamps the field with `Math.max(1, parseInt(...))`. A NaN is falsy and is stopped by the guard at line 91. `Simulate` takes `frames` as a `nat`, with 0 standing for any falsy value.

## Model

| member | source | states |
|---|---|---|
| Simulator.Fifo | src/Simulator.jsx:4-25 | The loop returns exactly `Simulation(FIFO, references, frames)`. `hits + faults == stats.length ==` the number of valid references. |
| Simulator.Lru | src/Simulator.jsx:28-51 | The loop returns exactly `Simulation(LRU, references, frames)`. The same count identity holds. |
| Simulator.Optimal | src/Simulator.jsx:54-85 | The loop, with its `future` slice and victim `reduce`, returns exactly `Simulation(OPTIMAL, references, frames)`. The same count identity holds. |
| Simulator.Simulate | src/Simulator.jsx:91-104 | Results are produced exactly when `frames` is truthy and the reference string is non-empty; otherwise the result is empty (`{}`). Each of the three outcomes satisfies `hits + faults == stats.length ==` the number of valid references. |
| Pages.Remove | src/Simulator.jsx:45 | The filter keeps exactly the elements different from `x` and never lengthens the sequence. |
| Pages.StripIsValidPages | src/Simulator.jsx:11 | The references the skip test lets through, kept as references, are exactly the valid pages in the same order. |
| Pages.RemoveAt | src/Simulator.jsx:74 | On a duplicate-free resident set, filtering out `memory[k]` removes exactly position `k`. The other pages keep their order. |
| Pages.NoDupRemove | src/Simulator.jsx:45 | Filtering keeps the set duplicate-free. It removes exactly one element when the value is present. |
| Replacement.FifoNext | src/Simulator.jsx:12-21 | Definition of one FIFO step: a hit changes nothing; a fault on a full set shifts out `memory[0]`, then the page is pushed. Characterised by `StepKeepsResidentSet`, `FaultAtCapacity`, `HitKeepsResidents` and `Policies.FifoHoldsLatestFaults`. |
| Replacement.LruNext | src/Simulator.jsx:36-47 | Definition of one LRU step: a hit filters the page out and appends it; a fault is the FIFO fault. Characterised by `LruHitMovesToBack`, `LruHitPermutes`, `Policies.LruStepOnRecency` and `Policies.LruHoldsMostRecent`. |
| Replacement.Farther | src/Simulator.jsx:68-72 | Definition of the `reduce` callback: keep the accumulator only when its next use is strictly farther. Characterised by `ReduceKeepsLastFarthest` and `Policies.NextUseOrderIgnoresInvalid`. |
| Replacement.Victim | src/Simulator.jsx:67-73 | Definition of `memory.reduce(...)` with no initial value: the fold of `Farther` starting from `memory[0]`. Characterised by `VictimIsLastFarthest`. |
| Replacement.OptimalNext | src/Simulator.jsx:63-81 | Definition of one Optimal step: a hit changes nothing; a fault on a full set filters out the victim, then the page is pushed. Characterised by `OptimalFaultEvictsLastFarthest`, `StepKeepsResidentSet` and `Policies.NextIgnoresInvalid`. |
| Replacement.Next | src/Simulator.jsx:92-94 | Definition: the step of the chosen policy. Characterised by `StepKeepsResidentSet`, `HitKeepsResidents` and `Policies.NextIgnoresInvalid`. |
| Replacement.Advance | src/Simulator.jsx:10-22 | Definition of one loop iteration: an invalid entry (the skip test of lines 11, 35 and 62) changes nothing; a valid one counts a hit or a fault, takes the step and records a snapshot. Characterised by `Trace.AdvanceKeepsConsistent`. |
| Replacement.Run | src/Simulator.jsx:10-23 | Definition of the loop state after a prefix of the references. Characterised by `Trace.RunCounts`, `Trace.RunSteps`, `Trace.RunRecordsValidPages` and `Policies.RunIgnoresInvalid`. |
| Replacement.Simulation | src/Simulator.jsx:24 | Definition of the returned `{faults, hits, stats}` record. Characterised by the contracts of `Simulator.Fifo`, `Simulator.Lru`, `Simulator.Optimal` and by `Policies.SimulationIgnoresInvalid`. |
| Replacement.NextUse | src/Simulator.jsx:68-71 | The result is the first index of the page in `future`, or the length of `future` (for `Infinity`) when it does not occur. Every earlier entry is a different page or an invalid entry. |
| Replacement.Reduce | src/Simulator.jsx:67-73 | The fold returns the accumulator or an element of the rest. No element has a farther next use than the result. |
| Replacement.ReduceKeepsLastFarthest | src/Simulator.jsx:67-73 | The fold ends at position `FoldPosition`. Every page after that position is next used strictly sooner. |
| Replacement.VictimIsLastFarthest | src/Simulator.jsx:67-73 | The victim is the last resident whose next use is the farthest. |
| Replacement.OptimalFaultEvictsLastFarthest | src/Simulator.jsx:63-76 | An Optimal fault on a full set removes exactly one resident, the last one with the farthest next use. The rest keep their order and the page is appended. |
| Replacement.LruHitMovesToBack | src/Simulator.jsx:43-47 | An LRU hit takes the page out of its position and appends it. All other pages keep their relative order. |
| Replacement.LruHitPermutes | src/Simulator.jsx:45 | An LRU hit only reorders the resident set: same multiset, same length, still duplicate-free. |
| Replacement.StepKeepsResidentSet | src/Simulator.jsx:12-21 | Every policy's step satisfies all of: (1) it keeps at most `frames` pages, none twice; (2) the page becomes resident; (3) the set never shrinks; (4) nothing but the page enters; (5) a fault appends the page last; (6) a fault below capacity appends to the unchanged set; (7) a hit keeps the same multiset. The same holds for lines 36-47 and 63-81. |
| Replacement.HitKeepsResidents | src/Simulator.jsx:19-21 | On a hit, every policy keeps the same residents, the same length and duplicate-freedom. |
| Replacement.FaultAtCapacity | src/Simulator.jsx:13-16 | A fault on a full set keeps exactly `frames` pages without duplicates, ends with the page, and admits no other new page. |
| Replacement.EvictAt | src/Simulator.jsx:74-76 | Evicting the victim at index `k` yields `memory[..k] + memory[k+1..] + [page]`. |
| Trace.RunCounts | src/Simulator.jsx:10-24 | After any prefix of the references, `hits + faults == stats.length ==` the number of valid references in it. |
| Trace.RunSteps | src/Simulator.jsx:12-21 | Every snapshot obeys `StepObeys` against the one before it: at most `frames` pages and no duplicates; the page is resident; `fault` holds exactly when the page was not resident before; on a fault the page is last; below capacity nothing is evicted; a hit keeps the residents. The current set equals the last snapshot. |
| Trace.AdvanceKeepsConsistent | src/Simulator.jsx:10-23 | One loop iteration, valid or skipped, preserves the invariant `Consistent`. |
| Trace.RunRecordsValidPages | src/Simulator.jsx:18-21 | `stats[k].page` is the `k`-th valid reference. |
| Trace.SnapshotsHoldSeenPages | src/Simulator.jsx:18-21 | Every page in snapshot `k` is a valid reference seen at or before step `k`. |
| Trace.SnapshotsNeverShrink | src/Simulator.jsx:13-16 | Snapshot sizes never decrease and stay at most `frames`. |
| Policies.FifoHoldsLatestFaults | src/Simulator.jsx:12-21 | After any prefix, the FIFO resident set is the last `frames` pages that faulted, oldest first. |
| Policies.LastUsesAppend | src/Simulator.jsx:45 | Using page `p` again moves it to the back of the recency list: `LastUses(pages + [p]) == Remove(LastUses(pages), p) + [p]`. |
| Policies.LruStepOnRecency | src/Simulator.jsx:36-47 | One LRU step on the last `frames` entries of the recency list gives the last `frames` entries of the updated recency list. |
| Policies.LruHoldsMostRecent | src/Simulator.jsx:34-50 | After any prefix, the LRU resident set is the `frames` most recently used distinct pages, least recent first. |
| Policies.LruHitIffRecent | src/Simulator.jsx:36-47 | An LRU reference hits exactly when its page is among the `frames` most recently used distinct pages before it. |
| Policies.NextUseOrderIgnoresInvalid | src/Simulator.jsx:68-72 | Comparing two next-use distances gives the same answer whether or not invalid entries are dropped from `future`. |
| Policies.ReduceIgnoresInvalid | src/Simulator.jsx:67-73 | The victim fold picks the same page on the raw and on the stripped future. |
| Policies.NextIgnoresInvalid | src/Simulator.jsx:63-76 | Every policy's step is the same on the raw and on the stripped future. |
| Policies.RunIgnoresInvalid | src/Simulator.jsx:60-62 | The state after any prefix equals the state of the run on the stripped string after its valid references. |
| Policies.SimulationIgnoresInvalid | src/Simulator.jsx:11 | Skipped entries change nothing: a whole run gives the same counters and snapshots on the string with invalid entries removed. The same holds for lines 35 and 62. |
| Examples.FifoExample | src/Simulator.jsx:4-25 | FIFO on `1,2,3,2,1,4,5` with 3 frames: 5 faults, 2 hits, final snapshot `[3,4,5]`. |
| Examples.LruExampleHits | src/AlgorithmInfo.jsx:107-111 | The LRU hit on 2 turns `[1,2,3]` into `[1,3,2]`, as the algorithm's documentation shows; the hit on 1 then gives `[3,2,1]`. |
| Examples.LruExample | src/Simulator.jsx:28-51 | LRU on the same string: `[1,3,2]` after four references, then 5 faults, 2 hits and final snapshot `[1,4,5]`. |
| Examples.OptimalEvictsThree | src/Simulator.jsx:67-74 | With only 5 still to come, 1, 2 and 3 all tie at "never again". The fold evicts the last of them, 3, giving `[1,2,4]`. |
| Examples.OptimalEvictsFour | src/Simulator.jsx:67-74 | With nothing left to come, the fold evicts the last resident, 4, giving `[1,2,5]`. |
| Examples.OptimalExample | src/Simulator.jsx:54-85 | Optimal on the same string: `[1,2,4]` after six references, then 5 faults, 2 hits and final snapshot `[1,2,5]`. |

## Left out

- The `useEffect`/`useState`/`onResults` plumbing of the `Simulator` component: it is React glue. `Simulate` keeps only its guard. The `references` truthiness test is not modelled, because a sequence always exists. The `typeof onResults === 'function'` test is not modelled, because the only caller, src/App.jsx:88, always passes the function `handleResults`.
- Behaviour with `frames <= 0`, excluded by `requires frames >= 1`. With zero frames, `fifo` and `lru` would hold one page, and `optimal`'s `reduce` on an empty `memory` would throw. The input form never produces such a value.
- Non-integer page values: fractional numbers, `Infinity` and `-0` as pages. The engine would compare them with `===`; the model uses `int`.
- Each entry's JavaScript type is abstracted to `Valid`/`Invalid`; which values count as invalid is decided by the skip test, not by the model.
- Reference-string parsing and random generation in the input form: JavaScript `Number()` coercion and `Math.random`.
- Hit-ratio computation: floating-point division and `toFixed`.
- All rendering components: memory, chart, lookup-table, statistics and grid visualisers, navigation and the algorithm description pages. They are UI and canvas code.
- Purity and determinism: each policy allocates a fresh `memory` and `stats` and copies snapshots with `[...memory]`. The model holds this by construction, because `Run` and `Simulation` are functions and each method's result is one of them. No separate lemma states it.
- Aliasing of the snapshot arrays: `[...memory]` makes each snapshot an independent copy. In the model every snapshot is a value, so aliasing cannot arise.
