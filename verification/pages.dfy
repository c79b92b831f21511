// Values shared by the three replacement policies of src/Simulator.jsx:
// page references, per-step snapshots, the result record, and the
// sequence operations the engine applies to the resident set.

module Pages {

  /** One entry of a reference string. The engine skips every entry that is
    * not a number or is NaN; such an entry is `Invalid`. */
  datatype Ref = Valid(page: int) | Invalid

  /** The record pushed for each processed reference: the page, a copy of
    * the resident set after the step, and whether the step faulted. */
  datatype Step = Step(page: int, memory: seq<int>, fault: bool)

  /** What each policy returns: `{faults, hits, stats}`. */
  datatype Outcome = Outcome(faults: nat, hits: nat, stats: seq<Step>)

  /** The pages of the valid references, in input order. */
  function ValidPages(refs: seq<Ref>): (pages: seq<int>)
    ensures |pages| <= |refs|
  {
    if refs == [] then []
    else
      var init := refs[..|refs| - 1];
      assert refs == init + [refs[|refs| - 1]];
      match refs[|refs| - 1]
      case Valid(p) => ValidPages(init) + [p]
      case Invalid => ValidPages(init)
  }

  /** The reference string with every invalid entry dropped. */
  function Strip(refs: seq<Ref>): (valid: seq<Ref>)
    ensures |valid| <= |refs|
  {
    if refs == [] then []
    else
      var init := refs[..|refs| - 1];
      assert refs == init + [refs[|refs| - 1]];
      if refs[|refs| - 1].Valid? then Strip(init) + [refs[|refs| - 1]] else Strip(init)
  }

  /** `Strip` and `ValidPages` describe the same valid references: the
    * stripped string is the valid pages, each wrapped back as a reference. */
  lemma {:induction false} StripIsValidPages(refs: seq<Ref>)
    ensures |Strip(refs)| == |ValidPages(refs)|
    ensures forall k :: 0 <= k < |Strip(refs)| ==> Strip(refs)[k] == Valid(ValidPages(refs)[k])
  {
    if refs != [] {
      StripIsValidPages(refs[..|refs| - 1]);
    }
  }

  /** No page occurs twice. */
  ghost predicate NoDup(s: seq<int>)
  {
    forall i, j :: 0 <= i < j < |s| ==> s[i] != s[j]
  }

  /** `s.filter(p => p !== x)`: every occurrence of `x` dropped, the rest in order. */
  function Remove(s: seq<int>, x: int): (r: seq<int>)
    ensures |r| <= |s|
    ensures forall y :: y in r <==> y in s && y != x
  {
    if s == [] then [] else (if s[0] == x then [] else [s[0]]) + Remove(s[1..], x)
  }

  lemma {:induction false} RemoveAbsent(s: seq<int>, x: int)
    requires x !in s
    ensures Remove(s, x) == s
  {
    if s != [] {
      RemoveAbsent(s[1..], x);
      assert s == [s[0]] + s[1..];
    }
  }

  lemma {:induction false} RemoveConcat(a: seq<int>, b: seq<int>, x: int)
    ensures Remove(a + b, x) == Remove(a, x) + Remove(b, x)
  {
    if a == [] {
      assert a + b == b;
    } else {
      assert (a + b)[1..] == a[1..] + b;
      RemoveConcat(a[1..], b, x);
    }
  }

  /** On a duplicate-free sequence, filtering out the element at index `k`
    * removes exactly that position and keeps the others in order. */
  lemma RemoveAt(s: seq<int>, k: nat)
    requires NoDup(s) && k < |s|
    ensures Remove(s, s[k]) == s[..k] + s[k + 1..]
    ensures |Remove(s, s[k])| == |s| - 1
  {
    var x, pre, post := s[k], s[..k], s[k + 1..];
    assert s == pre + ([x] + post);
    assert x !in pre by {
      forall i | 0 <= i < |pre| ensures pre[i] != x { assert pre[i] == s[i]; }
    }
    assert x !in post by {
      forall i | 0 <= i < |post| ensures post[i] != x { assert post[i] == s[k + 1 + i]; }
    }
    RemoveConcat(pre, [x] + post, x);
    RemoveConcat([x], post, x);
    RemoveAbsent(pre, x);
    RemoveAbsent(post, x);
    assert Remove([x], x) == [];
  }

  lemma NoDupRemove(s: seq<int>, x: int)
    requires NoDup(s)
    ensures NoDup(Remove(s, x))
    ensures x in s ==> |Remove(s, x)| == |s| - 1
  {
    if x in s {
      var k :| 0 <= k < |s| && s[k] == x;
      RemoveAt(s, k);
      var r := s[..k] + s[k + 1..];
      forall i, j | 0 <= i < j < |r| ensures r[i] != r[j] {
        var i' := if i < k then i else i + 1;
        var j' := if j < k then j else j + 1;
        assert r[i] == s[i'] && r[j] == s[j'];
      }
    } else {
      RemoveAbsent(s, x);
    }
  }

  lemma NoDupAppend(s: seq<int>, x: int)
    requires NoDup(s) && x !in s
    ensures NoDup(s + [x])
  {
  }
}
