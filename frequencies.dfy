/**
 * Frequency drift: the plain sum of a list of frequency changes, and the
 * first running sum that repeats while the list is applied over and over,
 * within a bounded number of extra passes.
 */
module Frequencies {
  import opened Wrappers

  /** The sum of the frequency changes (part 1). */
  function Sum(values: seq<int>): int {
    if values == [] then 0 else Sum(values[..|values| - 1]) + values[|values| - 1]
  }

  /** The sum of a concatenation is the sum of the sums. */
  lemma {:induction false} SumAppend(a: seq<int>, b: seq<int>)
    ensures Sum(a + b) == Sum(a) + Sum(b)
    decreases |b|
  {
    if b == [] {
      assert a + b == a;
    } else {
      var n := |b| - 1;
      assert (a + b)[..|a + b| - 1] == a + b[..n];
      SumAppend(a, b[..n]);
    }
  }

  /** Summing from the front, as `Iterator::sum` folds, gives the same total. */
  lemma SumFront(values: seq<int>)
    requires values != []
    ensures Sum(values) == values[0] + Sum(values[1..])
  {
    assert values == [values[0]] + values[1..];
    SumAppend([values[0]], values[1..]);
    assert [values[0]][..0] == [];
  }

  /** The position in `values` reached after k steps of cycling through it. */
  function CyclePosition(len: nat, k: nat): (pos: nat)
    requires len > 0
    ensures pos < len
  {
    if k < len then k else CyclePosition(len, k - len)
  }

  /** One step advances the position by one, back to the front after the last change. */
  lemma {:induction false} CyclePositionStep(len: nat, k: nat)
    requires len > 0
    ensures CyclePosition(len, k + 1) == if CyclePosition(len, k) + 1 == len then 0 else CyclePosition(len, k) + 1
  {
    if k + 1 > len {
      CyclePositionStep(len, k - len);
      assert k + 1 - len == (k - len) + 1;
    } else if k + 1 == len {
      assert CyclePosition(len, k + 1) == CyclePosition(len, 0);
    }
  }

  /**
   * The running sum s_k after k steps through `values` taken cyclically,
   * starting from s_0 = 0 (the default value the source starts from).
   */
  function CycledSum(values: seq<int>, k: nat): int
    requires |values| > 0
  {
    if k == 0 then 0 else CycledSum(values, k - 1) + values[CyclePosition(|values|, k - 1)]
  }

  /** Within the first pass the running sum is the sum of a prefix. */
  lemma {:induction false} CycledSumPrefix(values: seq<int>, k: nat)
    requires 0 < |values| && k <= |values|
    ensures CycledSum(values, k) == Sum(values[..k])
  {
    if k > 0 {
      CycledSumPrefix(values, k - 1);
      assert values[..k][..k - 1] == values[..k - 1];
    }
  }

  /** One more whole pass adds the plain sum: s_(k + len) == s_k + Sum(values). */
  lemma {:induction false} CycledSumPeriodic(values: seq<int>, k: nat)
    requires |values| > 0
    ensures CycledSum(values, k + |values|) == CycledSum(values, k) + Sum(values)
  {
    if k == 0 {
      CycledSumPrefix(values, |values|);
      assert values[..|values|] == values;
    } else {
      CycledSumPeriodic(values, k - 1);
      assert k + |values| - 1 == (k - 1) + |values|;
      assert CyclePosition(|values|, k + |values| - 1) == CyclePosition(|values|, k - 1);
    }
  }

  /** After c whole passes the running sum is c times the plain sum. */
  lemma {:induction false} CycledSumOfPasses(values: seq<int>, c: nat)
    requires |values| > 0
    ensures CycledSum(values, c * |values|) == c * Sum(values)
  {
    if c > 0 {
      CycledSumOfPasses(values, c - 1);
      CycledSumPeriodic(values, (c - 1) * |values|);
      assert (c - 1) * |values| + |values| == c * |values|;
    }
  }

  /** The running sums s_0 … s_n as a set. */
  function SumsUpTo(values: seq<int>, n: nat): set<int>
    requires |values| > 0
  {
    if n == 0 then {0} else SumsUpTo(values, n - 1) + {CycledSum(values, n)}
  }

  /** s_k equals one of s_0 … s_(j-1). */
  function SeenBefore(values: seq<int>, k: nat, j: nat): bool
    requires |values| > 0
  {
    j > 0 && (CycledSum(values, j - 1) == CycledSum(values, k) || SeenBefore(values, k, j - 1))
  }

  /** `SeenBefore` is the bounded existential it reads as. */
  lemma {:induction false} SeenBeforeIff(values: seq<int>, k: nat, j: nat)
    requires |values| > 0
    ensures SeenBefore(values, k, j) <==> exists i :: 0 <= i < j && CycledSum(values, i) == CycledSum(values, k)
  {
    if j > 0 {
      SeenBeforeIff(values, k, j - 1);
      if SeenBefore(values, k, j) {
        if CycledSum(values, j - 1) == CycledSum(values, k) {
          assert 0 <= j - 1 < j && CycledSum(values, j - 1) == CycledSum(values, k);
          assert exists i :: 0 <= i < j && CycledSum(values, i) == CycledSum(values, k);
        } else {
          var i :| 0 <= i < j - 1 && CycledSum(values, i) == CycledSum(values, k);
          assert 0 <= i < j && CycledSum(values, i) == CycledSum(values, k);
        }
      } else {
        forall i | 0 <= i < j
          ensures CycledSum(values, i) != CycledSum(values, k)
        {
        }
      }
    }
  }

  /** Looking back over j sums is looking s_k up in the set of s_0 … s_(j-1). */
  lemma {:induction false} SeenBeforeInSet(values: seq<int>, k: nat, j: nat)
    requires |values| > 0 && j > 0
    ensures SeenBefore(values, k, j) <==> CycledSum(values, k) in SumsUpTo(values, j - 1)
  {
    if j > 1 {
      SeenBeforeInSet(values, k, j - 1);
    }
  }

  /** s_k is a repeat: it equals one of the earlier running sums s_0 … s_(k-1). */
  function IsRepeat(values: seq<int>, k: nat): bool
    requires |values| > 0
  {
    SeenBefore(values, k, k)
  }

  /** The first repeat among s_1 … s_n, if any. */
  function FirstRepeatWithin(values: seq<int>, n: nat): Option<int>
    requires |values| > 0
  {
    if n == 0 then None
    else if FirstRepeatWithin(values, n - 1).Some? then FirstRepeatWithin(values, n - 1)
    else if IsRepeat(values, n) then Some(CycledSum(values, n))
    else None
  }

  /**
   * The first repeat within n steps is s_k for the least k in 1..n that is a
   * repeat, and there is none exactly when no k in 1..n is a repeat.
   */
  lemma {:induction false} FirstRepeatWithinLeast(values: seq<int>, n: nat)
    requires |values| > 0
    ensures FirstRepeatWithin(values, n).None? <==> forall k :: 1 <= k <= n ==> !IsRepeat(values, k)
    ensures FirstRepeatWithin(values, n).Some? ==>
      exists k :: 1 <= k <= n && IsRepeat(values, k) && FirstRepeatWithin(values, n) == Some(CycledSum(values, k))
        && forall i :: 1 <= i < k ==> !IsRepeat(values, i)
  {
    if n > 0 {
      FirstRepeatWithinLeast(values, n - 1);
      if FirstRepeatWithin(values, n - 1).None? && IsRepeat(values, n) {
        assert 1 <= n <= n && IsRepeat(values, n) && FirstRepeatWithin(values, n) == Some(CycledSum(values, n));
      }
    }
  }

  /** Searching further never changes a repeat already found within fewer steps. */
  lemma {:induction false} FirstRepeatWithinStable(values: seq<int>, n: nat, m: nat)
    requires |values| > 0 && n <= m
    requires FirstRepeatWithin(values, n).Some?
    ensures FirstRepeatWithin(values, m) == FirstRepeatWithin(values, n)
    decreases m
  {
    if n < m {
      FirstRepeatWithinStable(values, n, m - 1);
    }
  }

  /**
   * What `find_first_cycled_sum_repeat` returns: nothing for no changes,
   * otherwise the first repeat among the running sums s_1 … s_N of the
   * cycled changes, with N = (maxCycles + 1) * len.
   */
  function FirstCycledSumRepeat(values: seq<int>, maxCycles: nat): Option<int> {
    if values == [] then None else FirstRepeatWithin(values, (maxCycles + 1) * |values|)
  }

  /** Allowing more passes never changes a repeat that fewer passes found. */
  lemma MoreCyclesKeepRepeat(values: seq<int>, maxCycles: nat, moreCycles: nat)
    requires maxCycles <= moreCycles
    requires FirstCycledSumRepeat(values, maxCycles).Some?
    ensures FirstCycledSumRepeat(values, moreCycles) == FirstCycledSumRepeat(values, maxCycles)
  {
    assert (maxCycles + 1) * |values| <= (moreCycles + 1) * |values| by {
      assert (moreCycles + 1) * |values| == (maxCycles + 1) * |values| + (moreCycles - maxCycles) * |values|;
    }
    FirstRepeatWithinStable(values, (maxCycles + 1) * |values|, (moreCycles + 1) * |values|);
  }

  /** Changes that add up to zero bring the sum back to 0 after one pass, so a repeat is always found. */
  lemma ZeroDriftRepeats(values: seq<int>, maxCycles: nat)
    requires values != [] && Sum(values) == 0
    ensures FirstCycledSumRepeat(values, maxCycles).Some?
  {
    var n := |values|;
    CycledSumPeriodic(values, 0);
    assert IsRepeat(values, n) by {
      SeenBeforeIff(values, n, n);
      assert 0 <= 0 < n && CycledSum(values, 0) == CycledSum(values, n);
    }
    FirstRepeatWithinLeast(values, n);
    var limit := (maxCycles + 1) * n;
    assert limit >= n by {
      assert limit == maxCycles * n + n;
    }
    FirstRepeatWithinStable(values, n, limit);
  }

  /**
   * `find_first_cycled_sum_repeat`: step through the cycled changes keeping
   * the running sum and the set of sums seen so far (starting with 0), and
   * stop at the first sum already in the set, or after N steps.
   */
  method FindFirstCycledSumRepeat(values: seq<int>, maxCycles: nat) returns (repeat: Option<int>)
    ensures values == [] ==> repeat == None
    ensures repeat == FirstCycledSumRepeat(values, maxCycles)
  {
    if |values| == 0 {
      return None;
    }
    var maxIterations := (maxCycles + 1) * |values|;
    var sum := 0;
    var seen: set<int> := {0};
    var iterNo, position := 0, 0;
    while iterNo < maxIterations
      invariant 0 <= iterNo <= maxIterations
      invariant position == CyclePosition(|values|, iterNo)
      invariant sum == CycledSum(values, iterNo)
      invariant seen == SumsUpTo(values, iterNo)
      invariant FirstRepeatWithin(values, iterNo) == None
      decreases maxIterations - iterNo
    {
      sum := sum + values[position];
      CyclePositionStep(|values|, iterNo);
      iterNo := iterNo + 1;
      position := if position + 1 == |values| then 0 else position + 1;
      SeenBeforeInSet(values, iterNo, iterNo);
      if sum in seen {
        FirstRepeatWithinStable(values, iterNo, maxIterations);
        return Some(sum);
      }
      seen := seen + {sum};
    }
    return None;
  }

  /** The source's tests: no changes give nothing; [1, -1] returns to 0 at once. */
  lemma FirstRepeatShortExamples()
    ensures FirstCycledSumRepeat([], 0) == None
    ensures FirstCycledSumRepeat([1, -1], 0) == Some(0)
    ensures FirstCycledSumRepeat([1, -1], 1) == Some(0)
  {
    assert FirstRepeatWithin([1, -1], 2) == Some(0);
    FirstRepeatWithinStable([1, -1], 2, 4);
  }

  /** The source's tests: [3, 3, 4, -2, -4] needs a second pass to revisit 10. */
  lemma FirstRepeatSecondPassExample()
    ensures FirstCycledSumRepeat([3, 3, 4, -2, -4], 0) == None
    ensures FirstCycledSumRepeat([3, 3, 4, -2, -4], 1) == Some(10)
  {
    var values := [3, 3, 4, -2, -4];
    assert FirstRepeatWithin(values, 3) == None;
    assert FirstRepeatWithin(values, 5) == None;
    assert FirstRepeatWithin(values, 7) == Some(10);
    FirstRepeatWithinStable(values, 7, 10);
  }

  /** The source's tests: [7, 7, -2, -7, -4] revisits 14 during the third pass. */
  lemma FirstRepeatThirdPassExample()
    ensures FirstCycledSumRepeat([7, 7, -2, -7, -4], 2) == Some(14)
  {
    var values := [7, 7, -2, -7, -4];
    assert FirstRepeatWithin(values, 3) == None;
    assert FirstRepeatWithin(values, 6) == None;
    assert FirstRepeatWithin(values, 9) == None;
    assert FirstRepeatWithin(values, 12) == None;
    assert FirstRepeatWithin(values, 13) == Some(14);
    FirstRepeatWithinStable(values, 13, 15);
  }
}
