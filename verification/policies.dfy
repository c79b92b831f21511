// Policy-specific facts about whole runs: what the FIFO queue and the LRU
// list hold after any prefix of the reference string, and that invalid
// entries can be dropped without changing any result.

module Policies {
  import opened Pages
  import opened Replacement

  /** The pages of the faulting steps, in order. */
  function FaultedPages(stats: seq<Step>): seq<int>
  {
    if stats == [] then []
    else
      var last := stats[|stats| - 1];
      FaultedPages(stats[..|stats| - 1]) + (if last.fault then [last.page] else [])
  }

  /** The last `n` elements of `s` (all of `s` when it is shorter). */
  function LastN(s: seq<int>, n: nat): (r: seq<int>)
    ensures |r| == if |s| <= n then |s| else n
  {
    if |s| <= n then s else s[|s| - n..]
  }

  /** Each page at its last occurrence, in the order of those occurrences:
    * the distinct pages from least to most recently used. */
  function LastUses(pages: seq<int>): seq<int>
  {
    if pages == [] then []
    else (if pages[0] in pages[1..] then [] else [pages[0]]) + LastUses(pages[1..])
  }

  // ---------------------------------------------------------------------
  // FIFO

  /** FIFO is a queue of the faulting pages: after any prefix, the resident
    * set is the last `frames` pages that faulted, oldest first. */
  lemma {:induction false} FifoHoldsLatestFaults(refs: seq<Ref>, n: nat, frames: int)
    requires frames >= 1 && n <= |refs|
    ensures var s := Run(FIFO, refs, n, frames);
      s.memory == LastN(FaultedPages(s.stats), frames)
  {
    if n > 0 {
      FifoHoldsLatestFaults(refs, n - 1, frames);
      var s := Run(FIFO, refs, n - 1, frames);
      var s' := Run(FIFO, refs, n, frames);
      if refs[n - 1].Valid? {
        var page := refs[n - 1].page;
        var f := FaultedPages(s.stats);
        assert s'.stats[..|s'.stats| - 1] == s.stats;
        if page !in s.memory {
          assert FaultedPages(s'.stats) == f + [page];
          if |f| >= frames {
            assert s.memory == f[|f| - frames..];
            assert s'.memory == s.memory[1..] + [page];
            assert (f + [page])[|f| + 1 - frames..] == f[|f| - frames..][1..] + [page];
          }
        } else {
          assert FaultedPages(s'.stats) == f;
        }
      }
    }
  }

  // ---------------------------------------------------------------------
  // LRU

  lemma {:induction false} LastUsesAppend(pages: seq<int>, p: int)
    ensures LastUses(pages + [p]) == Remove(LastUses(pages), p) + [p]
  {
    if pages == [] {
      assert [] + [p] == [p];
      assert LastUses([p]) == [p] + LastUses([]);
    } else {
      var x, rest := pages[0], pages[1..];
      var extended := pages + [p];
      assert extended[0] == x && extended[1..] == rest + [p];
      LastUsesAppend(rest, p);
      var head := if x in rest then [] else [x];
      var head' := if x in rest + [p] then [] else [x];
      RemoveConcat(head, LastUses(rest), p);
      calc {
        LastUses(extended);
        head' + LastUses(rest + [p]);
        head' + (Remove(LastUses(rest), p) + [p]);
        { assert Remove(head, p) == head'; }
        (Remove(head, p) + Remove(LastUses(rest), p)) + [p];
        Remove(head + LastUses(rest), p) + [p];
        Remove(LastUses(pages), p) + [p];
      }
    }
  }

  lemma {:induction false} LastUsesNoDup(pages: seq<int>)
    ensures NoDup(LastUses(pages))
    ensures forall x :: x in LastUses(pages) <==> x in pages
  {
    if pages != [] {
      LastUsesNoDup(pages[1..]);
      assert pages == [pages[0]] + pages[1..];
    }
  }

  /** One LRU step on the last `frames` entries of the recency list is the
    * last `frames` entries of the recency list with `p` used once more. */
  lemma LruStepOnRecency(recency: seq<int>, frames: int, p: int)
    requires frames >= 1 && NoDup(recency)
    ensures LruNext(LastN(recency, frames), frames, p) == LastN(Remove(recency, p) + [p], frames)
  {
    if |recency| <= frames {
      LruStepShort(recency, frames, p);
    } else {
      var pre, m := recency[..|recency| - frames], recency[|recency| - frames..];
      assert recency == pre + m;
      assert NoDup(m) by {
        forall i, j | 0 <= i < j < |m| ensures m[i] != m[j] {
          assert m[i] == recency[|pre| + i] && m[j] == recency[|pre| + j];
        }
      }
      if p in m {
        LruStepHit(pre, m, frames, p);
      } else {
        LruStepFault(pre, m, frames, p);
      }
    }
  }

  lemma LruStepShort(recency: seq<int>, frames: int, p: int)
    requires frames >= 1 && NoDup(recency) && |recency| <= frames
    ensures LruNext(recency, frames, p) == LastN(Remove(recency, p) + [p], frames)
  {
    NoDupRemove(recency, p);
    if p !in recency {
      RemoveAbsent(recency, p);
    }
  }

  lemma LruStepFault(pre: seq<int>, m: seq<int>, frames: int, p: int)
    requires frames >= 1 && |m| == frames && p !in m
    ensures LruNext(m, frames, p) == LastN(Remove(pre + m, p) + [p], frames)
  {
    RemoveConcat(pre, m, p);
    RemoveAbsent(m, p);
    var front := Remove(pre, p);
    var extended := front + (m + [p]);
    assert Remove(pre + m, p) + [p] == extended;
    assert LastN(extended, frames) == extended[|front| + 1..];
    assert extended[|front| + 1..] == m[1..] + [p];
    assert LruNext(m, frames, p) == m[1..] + [p];
  }

  lemma LruStepHit(pre: seq<int>, m: seq<int>, frames: int, p: int)
    requires frames >= 1 && |m| == frames && NoDup(pre + m) && NoDup(m) && p in m
    ensures LruNext(m, frames, p) == LastN(Remove(pre + m, p) + [p], frames)
  {
    assert p !in pre by {
      var recency := pre + m;
      forall i | 0 <= i < |pre| ensures pre[i] != p {
        var j :| 0 <= j < |m| && m[j] == p;
        assert pre[i] == recency[i] && m[j] == recency[|pre| + j];
      }
    }
    RemoveAbsent(pre, p);
    RemoveConcat(pre, m, p);
    NoDupRemove(m, p);
    assert Remove(pre + m, p) + [p] == pre + (Remove(m, p) + [p]);
  }

  /** LRU keeps the `frames` most recently used distinct pages, least
    * recently used first. */
  lemma {:induction false} LruHoldsMostRecent(refs: seq<Ref>, n: nat, frames: int)
    requires frames >= 1 && n <= |refs|
    ensures Run(LRU, refs, n, frames).memory == LastN(LastUses(ValidPages(refs[..n])), frames)
  {
    if n == 0 {
      assert refs[..0] == [];
    } else {
      LruHoldsMostRecent(refs, n - 1, frames);
      assert refs[..n][..n - 1] == refs[..n - 1];
      var pages := ValidPages(refs[..n - 1]);
      if refs[n - 1].Valid? {
        var p := refs[n - 1].page;
        LastUsesNoDup(pages);
        LastUsesAppend(pages, p);
        LruStepOnRecency(LastUses(pages), frames, p);
      }
    }
  }

  /** An LRU reference hits exactly when its page is among the `frames`
    * most recently used distinct pages before it. */
  lemma LruHitIffRecent(refs: seq<Ref>, n: nat, frames: int)
    requires frames >= 1 && n < |refs| && refs[n].Valid?
    ensures var s := Run(LRU, refs, n + 1, frames);
      |s.stats| > 0 &&
      (s.stats[|s.stats| - 1].fault <==>
        refs[n].page !in LastN(LastUses(ValidPages(refs[..n])), frames))
  {
    LruHoldsMostRecent(refs, n, frames);
  }

  // ---------------------------------------------------------------------
  // Invalid entries

  lemma {:induction false} StripConcat(a: seq<Ref>, b: seq<Ref>)
    ensures Strip(a + b) == Strip(a) + Strip(b)
    decreases |b|
  {
    if b == [] {
      assert a + b == a;
    } else {
      var init := b[..|b| - 1];
      assert (a + b)[..|a + b| - 1] == a + init;
      assert b == init + [b[|b| - 1]];
      StripConcat(a, init);
    }
  }

  /** Dropping invalid entries keeps the order of next uses, and so the
    * outcome of every comparison of the victim fold. */
  lemma {:induction false} NextUseOrderIgnoresInvalid(a: int, b: int, future: seq<Ref>)
    ensures NextUse(a, future) > NextUse(b, future) <==> NextUse(a, Strip(future)) > NextUse(b, Strip(future))
  {
    if future != [] {
      var x, rest := future[0], future[1..];
      StripCons(future);
      NextUseOrderIgnoresInvalid(a, b, rest);
      if x.Valid? {
        NextUseCons(a, x, Strip(rest));
        NextUseCons(b, x, Strip(rest));
      }
    }
  }

  lemma StripCons(refs: seq<Ref>)
    requires refs != []
    ensures Strip(refs) == if refs[0].Valid? then [refs[0]] + Strip(refs[1..]) else Strip(refs[1..])
  {
    assert refs == [refs[0]] + refs[1..];
    StripConcat([refs[0]], refs[1..]);
    assert [refs[0]][..0] == [];
  }

  lemma NextUseCons(a: int, x: Ref, rest: seq<Ref>)
    ensures NextUse(a, [x] + rest) == if x == Valid(a) then 0 else 1 + NextUse(a, rest)
  {
    assert ([x] + rest)[1..] == rest;
  }

  lemma {:induction false} ReduceIgnoresInvalid(acc: int, rest: seq<int>, future: seq<Ref>)
    ensures Reduce(acc, rest, future) == Reduce(acc, rest, Strip(future))
    decreases |rest|
  {
    if rest != [] {
      NextUseOrderIgnoresInvalid(acc, rest[0], future);
      ReduceIgnoresInvalid(Farther(acc, rest[0], future), rest[1..], future);
    }
  }

  lemma NextIgnoresInvalid(policy: Policy, memory: seq<int>, frames: int, page: int, future: seq<Ref>)
    requires frames >= 1
    ensures Next(policy, memory, frames, page, future) == Next(policy, memory, frames, page, Strip(future))
  {
    if |memory| > 0 {
      ReduceIgnoresInvalid(memory[0], memory[1..], future);
    }
  }

  /** Where reference `n - 1` lands in the stripped string: a valid one sits
    * at index `|Strip(refs[..n - 1])|`, followed by what is left of the rest. */
  lemma StripAt(refs: seq<Ref>, n: nat)
    requires 0 < n <= |refs|
    ensures var k := |Strip(refs[..n - 1])|;
      && |Strip(refs[..n])| <= |Strip(refs)|
      && (refs[n - 1].Invalid? ==> Strip(refs[..n]) == Strip(refs[..n - 1]))
      && (refs[n - 1].Valid? ==>
            && |Strip(refs[..n])| == k + 1 <= |Strip(refs)|
            && Strip(refs)[k] == refs[n - 1]
            && Strip(refs)[k + 1..] == Strip(refs[n..]))
  {
    assert refs == refs[..n] + refs[n..];
    StripConcat(refs[..n], refs[n..]);
    assert refs[..n][..n - 1] == refs[..n - 1];
    var valid, pre := Strip(refs), Strip(refs[..n - 1]);
    if refs[n - 1].Valid? {
      assert valid == pre + [refs[n - 1]] + Strip(refs[n..]);
      assert valid[|pre| + 1..] == Strip(refs[n..]);
    }
  }

  /** One valid step of the original run is one step of the stripped run. */
  lemma StrippedStep(policy: Policy, valid: seq<Ref>, k: nat, frames: int, s: State, ref: Ref, future: seq<Ref>)
    requires frames >= 1 && k < |valid| && ref.Valid?
    requires valid[k] == ref && valid[k + 1..] == Strip(future) && Run(policy, valid, k, frames) == s
    ensures Run(policy, valid, k + 1, frames) == Advance(policy, s, ref, future, frames)
  {
    NextIgnoresInvalid(policy, s.memory, frames, ref.page, future);
  }

  lemma {:induction false} RunIgnoresInvalid(policy: Policy, refs: seq<Ref>, n: nat, frames: int)
    requires frames >= 1 && n <= |refs|
    ensures |Strip(refs[..n])| <= |Strip(refs)|
    ensures Run(policy, refs, n, frames) == Run(policy, Strip(refs), |Strip(refs[..n])|, frames)
  {
    if n == 0 {
      assert refs[..0] == [];
    } else {
      RunIgnoresInvalid(policy, refs, n - 1, frames);
      StripAt(refs, n);
      if refs[n - 1].Valid? {
        var s := Run(policy, refs, n - 1, frames);
        StrippedStep(policy, Strip(refs), |Strip(refs[..n - 1])|, frames, s, refs[n - 1], refs[n..]);
      }
    }
  }

  /** A reference string with its invalid entries removed gives the same
    * counters and the same steps as the original, under every policy. */
  lemma SimulationIgnoresInvalid(policy: Policy, refs: seq<Ref>, frames: int)
    requires frames >= 1
    ensures Simulation(policy, refs, frames) == Simulation(policy, Strip(refs), frames)
  {
    RunIgnoresInvalid(policy, refs, |refs|, frames);
    assert refs[..|refs|] == refs;
  }
}
