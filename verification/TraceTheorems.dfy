/** Laws of the tracker over families of traces: reorderings, losses in order, hostile numbers. */
module TraceTheorems {
  import opened MachineInts
  import opened Options
  import opened SequenceTracker

  /** The numbers a sender stamps on its first `n` datagrams. */
  function FirstNumbers(n: nat): seq<u64>
    requires n <= TWO_TO_64
  {
    seq(n, i requires 0 <= i < n => i)
  }

  ghost predicate Increasing(trace: seq<int>) {
    forall i, j | 0 <= i < j < |trace| :: trace[i] < trace[j]
  }

  ghost predicate Sorted(trace: seq<int>) {
    forall i, j | 0 <= i < j < |trace| :: trace[i] <= trace[j]
  }

  /** Nothing dropped, nothing duplicated: the two counters differ by the first number. */
  lemma PermutationBalance(trace: seq<u64>, n: nat)
    requires 0 < n <= U64_MAX && multiset(trace) == multiset(FirstNumbers(n))
    ensures Run(trace).outOfOrder == Run(trace).loss + trace[0]
  {
    var sent := FirstNumbers(n);
    assert |trace| == |multiset(trace)| == |multiset(sent)| == n;
    forall i | 0 <= i < |trace|
      ensures trace[i] < n
    {
      assert trace[i] in multiset(trace);
      assert trace[i] in sent;
    }
    assert sent[n - 1] in multiset(sent);
    assert sent[n - 1] in trace;
    assert Largest(trace) in trace;
    TrackerMeaning(trace);
  }

  /** Of all orders that start with the smallest number, the sorted one loses least, and exactly the gaps. */
  lemma SortedOrderLosesLeast(trace: seq<u64>, sorted: seq<u64>)
    requires trace != [] && BelowMax(trace)
    requires forall i | 0 <= i < |trace| :: trace[0] <= trace[i]
    requires multiset(sorted) == multiset(trace) && Sorted(sorted)
    ensures Run(sorted).loss == |Missing(trace)| <= Run(trace).loss
    ensures Run(sorted).loss == Run(trace).loss <==> LateNumbers(trace) == {}
  {
    assert |sorted| == |multiset(sorted)| == |multiset(trace)| == |trace|;
    SameElements(trace, sorted);
    assert sorted[0] in trace && trace[0] in sorted;
    assert Missing(sorted) == Missing(trace);
    SortedHasNoneLate(sorted);
    LossIsMissingPlusLate(sorted);
    LossIsMissingPlusLate(trace);
  }

  lemma SameElements(trace: seq<u64>, other: seq<u64>)
    requires trace != [] && other != [] && BelowMax(trace)
    requires multiset(trace) == multiset(other)
    ensures forall v: u64 :: v in trace <==> v in other
    ensures BelowMax(other) && Largest(other) == Largest(trace)
  {
    forall v: u64
      ensures v in trace <==> v in other
    {
      assert v in trace <==> v in multiset(trace);
      assert v in other <==> v in multiset(other);
    }
    forall i | 0 <= i < |other|
      ensures other[i] < U64_MAX
    {
      assert other[i] in trace;
    }
    assert Largest(other) in trace && Largest(trace) in other;
  }

  lemma IndicesFull(n: nat, s: set<int>)
    requires forall i | i in s :: 0 <= i < n
    ensures |s| == n <==> forall i | 0 <= i < n :: i in s
  {
    var all := Interval(0, n);
    assert all == s + (all - s);
    if i :| 0 <= i < n && i !in s {
      assert i in all - s;
    } else {
      assert s == all;
    }
  }

  lemma IncreasingIffAllRecords(trace: seq<u64>)
    ensures Increasing(trace) <==> forall i | 0 <= i < |trace| :: i in Records(trace)
  {
    if forall i | 0 <= i < |trace| :: i in Records(trace) {
      forall i, j | 0 <= i < j < |trace|
        ensures trace[i] < trace[j]
      {
        assert j in Records(trace) && IsRecord(trace, j);
      }
    } else {
      var j :| 0 <= j < |trace| && j !in Records(trace);
      assert !IsRecord(trace, j);
    }
  }

  /** Nothing is counted out of order exactly when each datagram is numbered above the one before. */
  lemma NoneOutOfOrderIffIncreasing(trace: seq<u64>)
    requires BelowMax(trace)
    ensures Run(trace).outOfOrder == 0 <==> Increasing(trace)
  {
    if trace != [] {
      TrackerMeaning(trace);
      IndicesFull(|trace|, Records(trace));
      IncreasingIffAllRecords(trace);
    }
  }

  lemma SortedHasNoneLate(trace: seq<u64>)
    requires trace != [] && Sorted(trace)
    ensures LateNumbers(trace) == {}
    ensures Largest(trace) == trace[|trace| - 1]
  {
    forall v: int, i: nat | i < |trace|
      ensures !ArrivedLateAt(trace, v, i)
    {
    }
    assert trace[|trace| - 1] in trace;
    var i :| 0 <= i < |trace| && trace[i] == Largest(trace);
  }

  ghost function AbsentBetween(trace: seq<u64>, lo: int, hi: int): set<int> {
    set v: int | lo < v < hi && v !in trace
  }

  /** In order, the loss is exactly the numbers absent strictly between the first and the last. */
  lemma IncreasingLoss(trace: seq<u64>)
    requires trace != [] && BelowMax(trace) && Increasing(trace)
    ensures Largest(trace) == trace[|trace| - 1]
    ensures Run(trace).loss == |AbsentBetween(trace, trace[0], trace[|trace| - 1])|
  {
    SortedHasNoneLate(trace);
    LossIsMissingPlusLate(trace);
    MissingInOrder(trace);
  }

  lemma MissingInOrder(trace: seq<u64>)
    requires trace != [] && Largest(trace) == trace[|trace| - 1]
    ensures Missing(trace) == AbsentBetween(trace, trace[0], trace[|trace| - 1])
  {
    var first, last := trace[0], trace[|trace| - 1];
    assert first in trace && last in trace;
    forall v: int
      ensures v in Missing(trace) <==> v in AbsentBetween(trace, first, last)
    {
    }
  }

  lemma {:induction false} IncreasingGap(trace: seq<u64>, i: nat, j: nat)
    requires Increasing(trace) && i <= j < |trace|
    ensures trace[j] - trace[i] >= j - i
    decreases j - i
  {
    if i < j {
      IncreasingGap(trace, i, j - 1);
      assert trace[j - 1] < trace[j];
    }
  }

  /** Both counters stay at zero exactly on first, first + 1, first + 2, and so on. */
  lemma SilentIffConsecutive(trace: seq<u64>)
    requires trace != [] && BelowMax(trace)
    ensures Run(trace).loss == 0 && Run(trace).outOfOrder == 0
       <==> forall i | 0 <= i < |trace| :: trace[i] == trace[0] + i
  {
    var last := |trace| - 1;
    TrackerMeaning(trace);
    NoneOutOfOrderIffIncreasing(trace);
    if Increasing(trace) {
      IncreasingLoss(trace);
      forall i | 0 <= i <= last
        ensures trace[0] + i <= trace[i] <= trace[last] - (last - i)
      {
        IncreasingGap(trace, 0, i);
        IncreasingGap(trace, i, last);
      }
    }
  }

  // ---------- Streams of any 64-bit numbers ----------

  /** The high-water mark on every stream, the unsucceeded maximum included. */
  lemma {:induction false} MarkOnAnyStream(trace: seq<u64>)
    requires trace != []
    ensures Run(trace).next.Some?
    ensures var mark := Run(trace).next.value;
      && (forall x | x in trace && x != U64_MAX :: x < mark)
      && trace[0] <= mark
      && (mark == trace[0] || mark - 1 in trace)
  {
    var before, x := trace[..|trace| - 1], trace[|trace| - 1];
    assert trace == before + [x];
    if before == [] {
      assert Run(before) == FRESH;
    } else {
      MarkOnAnyStream(before);
      RunSnoc(before, x);
    }
  }

  /** The mark never goes back, whatever arrives. */
  lemma {:induction false} MarkNeverDecreases(trace: seq<u64>, i: nat, j: nat)
    requires 0 < i <= j <= |trace|
    ensures Run(trace[..i]).next.Some? && Run(trace[..j]).next.Some?
    ensures Run(trace[..i]).next.value <= Run(trace[..j]).next.value
    decreases j
  {
    if i == j {
      MarkOnAnyStream(trace[..i]);
    } else {
      MarkNeverDecreases(trace, i, j - 1);
      assert trace[..j] == trace[..j - 1] + [trace[j - 1]];
      RunSnoc(trace[..j - 1], trace[j - 1]);
    }
  }

  /** The datagrams numbered below the maximum. */
  function Low(trace: seq<u64>): (r: seq<u64>)
    ensures forall x | x in r :: x < U64_MAX
  {
    if trace == [] then []
    else
      var before, x := Low(trace[..|trace| - 1]), trace[|trace| - 1];
      if x == U64_MAX then before else before + [x]
  }

  lemma LowMark(trace: seq<u64>)
    requires Low(trace) != []
    ensures BelowMax(Low(trace)) && HighWater(Low(trace)) <= U64_MAX
  {
    assert forall i | 0 <= i < |Low(trace)| :: Low(trace)[i] in Low(trace);
  }

  /** What the datagrams numbered with the maximum add up to: each one the distance from the mark it found. */
  function Gaps(trace: seq<u64>): nat {
    if trace == [] then 0
    else
      var before, x := trace[..|trace| - 1], trace[|trace| - 1];
      if x != U64_MAX || Low(before) == [] then Gaps(before)
      else
        LowMark(before);
        Gaps(before) + (U64_MAX - HighWater(Low(before)))
  }

  lemma LowSnoc(trace: seq<u64>, x: u64)
    ensures Low(trace + [x]) == if x == U64_MAX then Low(trace) else Low(trace) + [x]
    ensures x != U64_MAX ==> Gaps(trace + [x]) == Gaps(trace)
    ensures x == U64_MAX && Low(trace) != [] ==>
      HighWater(Low(trace)) <= U64_MAX && Gaps(trace + [x]) == Gaps(trace) + (U64_MAX - HighWater(Low(trace)))
  {
    assert (trace + [x])[..|trace|] == trace;
    if Low(trace) != [] {
      LowMark(trace);
    }
  }

  /** The state of a run next to that of its datagrams below the maximum. */
  ghost predicate FollowsLow(t: Tracker, low: seq<u64>, gaps: nat) {
    && low != [] && BelowMax(low)
    && t.next == Run(low).next == Some(HighWater(low))
    && t.loss == Run(low).loss + gaps
    && t.outOfOrder == Run(low).outOfOrder
  }

  lemma FollowsLowStep(t: Tracker, low: seq<u64>, gaps: nat, x: u64)
    requires FollowsLow(t, low, gaps) && x != U64_MAX
    ensures FollowsLow(Track(t, x), low + [x], gaps)
  {
    RunSnoc(low, x);
    NextDatagram(low, x);
  }

  lemma FollowsLowMaximum(t: Tracker, low: seq<u64>, gaps: nat)
    requires FollowsLow(t, low, gaps)
    ensures FollowsLow(Track(t, U64_MAX), low, gaps + (U64_MAX - HighWater(low)))
  {
  }

  lemma SingleFollowsLow(trace: seq<u64>)
    requires |trace| == 1 && trace[0] != U64_MAX
    ensures Low(trace) == trace && Gaps(trace) == 0 && FollowsLow(Run(trace), Low(trace), Gaps(trace))
  {
    assert Low(trace[..0]) == [] && Gaps(trace[..0]) == 0;
    FirstDatagram(trace);
  }

  /** The exact loss of every stream that starts below the maximum; the rest of the state ignores the maximum. */
  lemma {:induction false} LossOnAnyStream(trace: seq<u64>)
    requires trace != [] && trace[0] != U64_MAX
    ensures FollowsLow(Run(trace), Low(trace), Gaps(trace)) && Low(trace)[0] == trace[0]
  {
    var before, x := trace[..|trace| - 1], trace[|trace| - 1];
    assert trace == before + [x];
    if before == [] {
      SingleFollowsLow(trace);
    } else {
      LossOnAnyStream(before);
      LowSnoc(before, x);
      RunSnoc(before, x);
      if x == U64_MAX {
        FollowsLowMaximum(Run(before), Low(before), Gaps(before));
      } else {
        FollowsLowStep(Run(before), Low(before), Gaps(before), x);
      }
    }
  }

  lemma TrackAtMaximum(t: Tracker, x: u64)
    requires t.next == Some(U64_MAX)
    ensures Track(t, x) == Tracker(Some(U64_MAX), t.loss, t.outOfOrder + if x == U64_MAX then 0 else 1)
  {
  }

  lemma SingleMaximum(trace: seq<u64>)
    requires |trace| == 1 && trace[0] == U64_MAX
    ensures Run(trace) == Tracker(Some(U64_MAX), 0, 0) && Low(trace) == []
  {
    assert Run(trace[..0]) == FRESH && Low(trace[..0]) == [];
  }

  /** A stream that starts with the maximum never counts a loss, and every lower number as out of order. */
  lemma {:induction false} MaximumFirst(trace: seq<u64>)
    requires trace != [] && trace[0] == U64_MAX
    ensures Run(trace).next == Some(U64_MAX) && Run(trace).loss == 0
    ensures Run(trace).outOfOrder == |Low(trace)|
  {
    var before, x := trace[..|trace| - 1], trace[|trace| - 1];
    assert trace == before + [x];
    if before == [] {
      SingleMaximum(trace);
    } else {
      MaximumFirst(before);
      RunSnoc(before, x);
      LowSnoc(before, x);
      TrackAtMaximum(Run(before), x);
    }
  }

  /** The numbers truly missing or late below the maximum, and the gaps the maximum opened. */
  ghost function ExactLoss(trace: seq<u64>): nat {
    if trace == [] || trace[0] == U64_MAX then 0
    else
      LossOnAnyStream(trace);
      |Missing(Low(trace))| + |LateNumbers(Low(trace))| + Gaps(trace)
  }

  /** The loss of any run whatever, by what arrived. */
  lemma LossOfRun(trace: seq<u64>)
    ensures Run(trace).loss == ExactLoss(trace)
  {
    if trace != [] {
      if trace[0] == U64_MAX {
        MaximumFirst(trace);
      } else {
        LossOnAnyStream(trace);
        LossIsMissingPlusLate(Low(trace));
      }
    }
  }

  /** Three datagrams are enough to exceed the counter, also when the maximum comes only once. */
  lemma ThreeDatagramsOverflow()
    ensures Run([0, U64_MAX, U64_MAX]).loss > U64_MAX
    ensures Run([0, U64_MAX, U64_MAX - 1]).loss > U64_MAX
  {
    var first: seq<u64> := [0];
    var second: seq<u64> := [0, U64_MAX];
    assert first == [] + [0] && second == first + [U64_MAX];
    RunSnoc([], 0);
    RunSnoc(first, U64_MAX);
    assert Run(second) == Tracker(Some(1), U64_MAX - 1, 0);
    assert [0, U64_MAX, U64_MAX] == second + [U64_MAX];
    assert [0, U64_MAX, U64_MAX - 1] == second + [U64_MAX - 1];
    RunSnoc(second, U64_MAX);
    RunSnoc(second, U64_MAX - 1);
  }

  ghost predicate DrawnFrom(trace: seq<u64>, numbers: set<u64>) {
    forall i | 0 <= i < |trace| :: trace[i] in numbers
  }

  /** `a` once, then `k` datagrams numbered with the maximum: each of these is a fresh gap. */
  function RepeatedMax(a: u64, k: nat): seq<u64> {
    if k == 0 then [a] else RepeatedMax(a, k - 1) + [U64_MAX]
  }

  /** The exact loss of such a run, by the law for every stream. */
  lemma RepeatedMaxLoss(a: u64, k: nat)
    requires a < U64_MAX
    ensures Run(RepeatedMax(a, k)).loss == k * (U64_MAX - 1 - a)
  {
    RepeatedMaxGaps(a, k);
    LossOnAnyStream(RepeatedMax(a, k));
    RunSnoc([], a);
    assert [] + [a] == [a];
  }

  lemma {:induction false} RepeatedMaxGaps(a: u64, k: nat)
    requires a < U64_MAX
    ensures RepeatedMax(a, k)[0] == a && Low(RepeatedMax(a, k)) == [a]
    ensures Gaps(RepeatedMax(a, k)) == k * (U64_MAX - 1 - a)
  {
    var trace := RepeatedMax(a, k);
    if k == 0 {
      assert trace[..0] == [] && Low([]) == [] && Gaps([]) == 0;
    } else {
      RepeatedMaxGaps(a, k - 1);
      assert trace[..|trace| - 1] == RepeatedMax(a, k - 1);
      OneMore(k, U64_MAX - 1 - a);
    }
  }

  lemma OneMore(k: nat, d: nat)
    requires k > 0
    ensures (k - 1) * d + d == k * d
    ensures d > 0 ==> k * d >= k
  {
  }

  lemma {:induction false} RepeatedMaxDrawn(a: u64, k: nat, numbers: set<u64>)
    requires a in numbers && U64_MAX in numbers
    ensures DrawnFrom(RepeatedMax(a, k), numbers)
  {
    if k > 0 {
      RepeatedMaxDrawn(a, k - 1, numbers);
    }
  }

  lemma {:induction false} TopTwoOpenNoGap(trace: seq<u64>)
    requires forall i | 0 <= i < |trace| :: trace[i] >= U64_MAX - 1
    ensures Gaps(trace) == 0
    ensures forall i | 0 <= i < |Low(trace)| :: Low(trace)[i] == U64_MAX - 1
  {
    if trace != [] {
      TopTwoOpenNoGap(trace[..|trace| - 1]);
    }
  }

  lemma TopTwoLoseNothing(trace: seq<u64>)
    requires forall i | 0 <= i < |trace| :: trace[i] >= U64_MAX - 1
    ensures Run(trace).loss == 0
  {
    TopTwoOpenNoGap(trace);
    LossOfRun(trace);
    if trace != [] && trace[0] != U64_MAX {
      var low := Low(trace);
      LossOnAnyStream(trace);
      TrackerMeaning(low);
      LossIsMissingPlusLate(low);
      assert IsRecord(low, 0) && 0 in Records(low);
    }
  }

  /** The 64-bit loss counter is wide enough for every trace over `numbers` in exactly these cases. */
  lemma LossFitsIff(numbers: set<u64>)
    ensures (forall trace: seq<u64> | DrawnFrom(trace, numbers) :: Run(trace).loss <= U64_MAX)
       <==> U64_MAX !in numbers || forall a | a in numbers :: a >= U64_MAX - 1
  {
    if U64_MAX !in numbers {
      forall trace: seq<u64> | DrawnFrom(trace, numbers)
        ensures Run(trace).loss <= U64_MAX
      {
        LossFits(trace);
      }
    } else if a :| a in numbers && a < U64_MAX - 1 {
      RepeatedMaxLoss(a, TWO_TO_64);
      OneMore(TWO_TO_64, U64_MAX - 1 - a);
      RepeatedMaxDrawn(a, TWO_TO_64, numbers);
    } else {
      forall trace: seq<u64> | DrawnFrom(trace, numbers)
        ensures Run(trace).loss <= U64_MAX
      {
        TopTwoLoseNothing(trace);
      }
    }
  }
}
