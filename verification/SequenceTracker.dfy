/**
 The UDP receiver's loss and reordering tracker. `Track` is one step of the
 receive loop and `Run` a whole trace of sequence numbers. The functions after
 them say what the counters should mean without mentioning the tracker: they
 look only at which numbers arrived and in which order.
 */
module SequenceTracker {
  import opened MachineInts
  import opened Options

  datatype Tracker = Tracker(next: Option<u64>, loss: nat, outOfOrder: nat)

  const FRESH: Tracker := Tracker(None, 0, 0)

  function Track(t: Tracker, number: u64): Tracker {
    var expected := if t.next.Some? then t.next.value else number;
    var next := Some(Max(expected, Wrap(number + 1)));
    if number > expected then
      Tracker(next, t.loss + (number - expected), t.outOfOrder)
    else if number < expected then
      Tracker(next, t.loss, t.outOfOrder + 1)
    else
      Tracker(next, t.loss, t.outOfOrder)
  }

  function Run(trace: seq<u64>): Tracker {
    if trace == [] then FRESH
    else Track(Run(trace[..|trace| - 1]), trace[|trace| - 1])
  }

  lemma RunSnoc(trace: seq<u64>, x: u64)
    ensures Run(trace + [x]) == Track(Run(trace), x)
  {
    assert (trace + [x])[..|trace|] == trace;
  }

  // ---------- What arrived, and in which order ----------

  /** No number is the one whose successor wraps to zero. */
  ghost predicate BelowMax(trace: seq<u64>) {
    forall i | 0 <= i < |trace| :: trace[i] < U64_MAX
  }

  function Largest(trace: seq<u64>): (m: u64)
    requires trace != []
    ensures m in trace && trace[0] <= m
    ensures forall x | x in trace :: x <= m
  {
    var last := trace[|trace| - 1];
    if |trace| == 1 then last
    else
      var before := Largest(trace[..|trace| - 1]);
      assert trace == trace[..|trace| - 1] + [last];
      if before < last then last else before
  }

  /** One above the largest number that arrived. */
  function HighWater(trace: seq<u64>): nat
    requires trace != []
  {
    Largest(trace) + 1
  }

  /** Datagram `i` is numbered above every datagram before it. */
  ghost predicate IsRecord(trace: seq<u64>, i: int)
    requires 0 <= i < |trace|
  {
    forall j | 0 <= j < i :: trace[j] < trace[i]
  }

  /** The in-order deliveries: the strict left-to-right maxima. */
  ghost function Records(trace: seq<u64>): set<int> {
    set i: int | 0 <= i < |trace| && IsRecord(trace, i)
  }

  /** The numbers from the first one to the high-water mark that never arrived. */
  ghost function Missing(trace: seq<u64>): set<int>
    requires trace != []
  {
    set v: int | trace[0] <= v < HighWater(trace) && v !in trace
  }

  /** The first datagram numbered `v` came after one numbered higher. */
  ghost predicate ArrivedLateAt(trace: seq<u64>, v: int, i: nat)
    requires i < |trace|
  {
    trace[i] == v && v !in trace[..i] && exists j :: 0 <= j < i && trace[j] > v
  }

  ghost predicate FirstArrivedLate(trace: seq<u64>, v: int) {
    exists i: nat :: i < |trace| && ArrivedLateAt(trace, v, i)
  }

  /** The in-range numbers whose first arrival was late. */
  ghost function LateNumbers(trace: seq<u64>): set<int>
    requires trace != []
  {
    set v: int | trace[0] <= v < HighWater(trace) && FirstArrivedLate(trace, v)
  }

  /** Datagrams numbered at least the first that do not exceed some earlier one. */
  ghost function LateArrivals(trace: seq<u64>): set<int>
    requires trace != []
  {
    set i: int | 0 <= i < |trace| && trace[i] >= trace[0] && exists j :: 0 <= j < i && trace[j] >= trace[i]
  }

  /** Datagrams numbered at least the first that repeat an earlier number. */
  ghost function Duplicates(trace: seq<u64>): set<int>
    requires trace != []
  {
    set i: int | 0 <= i < |trace| && trace[i] >= trace[0] && trace[i] in trace[..i]
  }

  // ---------- How each notion changes when one more datagram arrives ----------

  function Interval(lo: int, hi: int): (r: set<int>)
    requires lo <= hi
    ensures forall v :: v in r <==> lo <= v < hi
    ensures |r| == hi - lo
    decreases hi - lo
  {
    if lo == hi then {} else Interval(lo, hi - 1) + {hi - 1}
  }

  lemma SnocElements(trace: seq<u64>, x: u64, t: seq<u64>)
    requires t == trace + [x]
    ensures forall j {:trigger trace[j]} {:trigger t[j]} :: 0 <= j < |trace| ==> t[j] == trace[j]
    ensures t[|trace|] == x && t[..|trace|] == trace
    ensures forall v: int {:trigger v in t} {:trigger v in trace} :: v in t <==> v in trace || v == x
  {
  }

  lemma LargestSnoc(trace: seq<u64>, x: u64)
    requires trace != []
    ensures Largest(trace + [x]) == Max(Largest(trace), x)
  {
    assert (trace + [x])[..|trace|] == trace;
  }

  lemma ExceedsLargest(trace: seq<u64>, x: u64)
    requires trace != []
    ensures x > Largest(trace) <==> forall j | 0 <= j < |trace| :: trace[j] < x
  {
    if x <= Largest(trace) {
      var j :| 0 <= j < |trace| && trace[j] == Largest(trace);
      assert trace[j] >= x;
    } else {
      assert forall j | 0 <= j < |trace| :: trace[j] in trace;
    }
  }

  lemma RecordsSnoc(trace: seq<u64>, x: u64)
    requires trace != []
    ensures |Records(trace + [x])| == |Records(trace)| + (if x > Largest(trace) then 1 else 0)
  {
    var t := trace + [x];
    SnocElements(trace, x, t);
    ExceedsLargest(trace, x);
    assert IsRecord(t, |trace|) <==> x > Largest(trace);
    assert forall i | 0 <= i < |trace| :: IsRecord(t, i) <==> IsRecord(trace, i);
    var extra: set<int> := if x > Largest(trace) then {|trace|} else {};
    forall i: int
      ensures i in Records(t) <==> i in Records(trace) + extra
    {
    }
    assert Records(t) == Records(trace) + extra;
    assert |trace| !in Records(trace);
  }

  lemma MissingNumberSnoc(trace: seq<u64>, x: u64, v: int)
    requires trace != []
    ensures v in Missing(trace + [x])
       <==> (v in Missing(trace) && v != x) || HighWater(trace) <= v < x
  {
    var t := trace + [x];
    LargestSnoc(trace, x);
    SnocElements(trace, x, t);
    assert v in trace ==> v <= Largest(trace);
  }

  lemma MissingSnoc(trace: seq<u64>, x: u64)
    requires trace != []
    ensures var n := HighWater(trace);
      |Missing(trace + [x])| == if x >= n then |Missing(trace)| + (x - n)
                                else if x in Missing(trace) then |Missing(trace)| - 1
                                else |Missing(trace)|
  {
    var n := HighWater(trace);
    var added := if x >= n then Interval(n, x) else {};
    forall v: int
      ensures v in Missing(trace + [x]) <==> v in (Missing(trace) - {x as int}) + added
    {
      MissingNumberSnoc(trace, x, v);
    }
    assert Missing(trace + [x]) == (Missing(trace) - {x as int}) + added;
    assert Missing(trace) !! added;
  }

  lemma FirstArrivedLateSnoc(trace: seq<u64>, x: u64, v: int)
    requires trace != []
    ensures FirstArrivedLate(trace + [x], v)
       <==> FirstArrivedLate(trace, v) || (v == x && x !in trace && x < Largest(trace))
  {
    var t := trace + [x];
    assert t[..|trace|] == trace;
    forall i: nat | i < |trace|
      ensures ArrivedLateAt(t, v, i) <==> ArrivedLateAt(trace, v, i)
    {
      assert t[..i] == trace[..i];
    }
    assert ArrivedLateAt(t, v, |trace|) <==> v == x && x !in trace && x < Largest(trace) by {
      if v == x && x !in trace && x < Largest(trace) {
        var j :| 0 <= j < |trace| && trace[j] == Largest(trace);
        assert t[j] > v;
      }
      if ArrivedLateAt(t, v, |trace|) {
        var j :| 0 <= j < |trace| && t[j] > v;
        assert trace[j] in trace;
      }
    }
  }

  lemma LateIsBelowLargest(trace: seq<u64>, v: int)
    requires trace != [] && FirstArrivedLate(trace, v)
    ensures v in trace && v < Largest(trace)
  {
    var i: nat :| i < |trace| && ArrivedLateAt(trace, v, i);
    var j :| 0 <= j < i && trace[j] > v;
    assert trace[j] in trace && trace[i] in trace;
  }

  lemma LateNumberSnoc(trace: seq<u64>, x: u64, v: int)
    requires trace != []
    ensures v in LateNumbers(trace + [x]) <==> v in LateNumbers(trace) || (v == x && x in Missing(trace))
  {
    var t := trace + [x];
    LargestSnoc(trace, x);
    FirstArrivedLateSnoc(trace, x, v);
    assert t[0] == trace[0];
    assert v in LateNumbers(t) <==> trace[0] <= v < HighWater(t) && FirstArrivedLate(t, v);
    assert v in LateNumbers(trace) <==> trace[0] <= v < HighWater(trace) && FirstArrivedLate(trace, v);
    if FirstArrivedLate(trace, v) {
      LateIsBelowLargest(trace, v);
    }
  }

  lemma LateNumbersSnoc(trace: seq<u64>, x: u64)
    requires trace != []
    ensures |LateNumbers(trace + [x])| == |LateNumbers(trace)| + (if x in Missing(trace) then 1 else 0)
  {
    var t := trace + [x];
    var extra: set<int> := if x in Missing(trace) then {x as int} else {};
    forall v: int
      ensures v in LateNumbers(t) <==> v in LateNumbers(trace) + extra
    {
      LateNumberSnoc(trace, x, v);
    }
    assert LateNumbers(t) == LateNumbers(trace) + extra;
    if FirstArrivedLate(trace, x) {
      LateIsBelowLargest(trace, x);
    }
  }

  lemma LateArrivalsSnoc(trace: seq<u64>, x: u64)
    requires trace != []
    ensures |LateArrivals(trace + [x])| == |LateArrivals(trace)| + (if trace[0] <= x < HighWater(trace) then 1 else 0)
  {
    var t := trace + [x];
    SnocElements(trace, x, t);
    ExceedsLargest(trace, x);
    var extra: set<int> := if trace[0] <= x < HighWater(trace) then {|trace|} else {};
    forall i: int
      ensures i in LateArrivals(t) <==> i in LateArrivals(trace) + extra
    {
    }
    assert LateArrivals(t) == LateArrivals(trace) + extra;
    assert |trace| !in LateArrivals(trace);
  }

  lemma DuplicatesSnoc(trace: seq<u64>, x: u64)
    requires trace != []
    ensures |Duplicates(trace + [x])| == |Duplicates(trace)| + (if trace[0] <= x && x in trace then 1 else 0)
  {
    var t := trace + [x];
    assert t[..|trace|] == trace;
    assert forall i | 0 <= i < |trace| :: t[..i] == trace[..i];
    var extra: set<int> := if trace[0] <= x && x in trace then {|trace|} else {};
    forall i: int
      ensures i in Duplicates(t) <==> i in Duplicates(trace) + extra
    {
    }
    assert Duplicates(t) == Duplicates(trace) + extra;
    assert |trace| !in Duplicates(trace);
  }

  // ---------- What the counters mean over a whole trace ----------

  lemma FirstDatagram(trace: seq<u64>)
    requires |trace| == 1 && trace[0] < U64_MAX
    ensures Run(trace) == Tracker(Some(HighWater(trace)), 0, 0)
    ensures HighWater(trace) == trace[0] + 1
    ensures |Records(trace)| == 1
    ensures Missing(trace) == {} && LateNumbers(trace) == {}
    ensures LateArrivals(trace) == {} && Duplicates(trace) == {}
  {
    assert Run(trace[..0]) == FRESH;
    assert IsRecord(trace, 0);
    assert Records(trace) == {0};
  }

  lemma NextDatagram(trace: seq<u64>, x: u64)
    requires trace != [] && x < U64_MAX && Run(trace).next == Some(HighWater(trace))
    ensures var t, n := Run(trace + [x]), HighWater(trace);
      && t.next == Some(HighWater(trace + [x]))
      && HighWater(trace + [x]) == Max(n, x + 1)
      && t.loss == Run(trace).loss + (if x > n then x - n else 0)
      && t.outOfOrder == Run(trace).outOfOrder + (if x < n then 1 else 0)
  {
    RunSnoc(trace, x);
    LargestSnoc(trace, x);
  }

  /** The tracker against the trace alone: mark, in-order deliveries, both counters. */
  lemma {:induction false} TrackerMeaning(trace: seq<u64>)
    requires trace != [] && BelowMax(trace)
    ensures Run(trace).next == Some(HighWater(trace))
    ensures Run(trace).loss + |Records(trace)| == HighWater(trace) - trace[0]
    ensures Run(trace).outOfOrder + |Records(trace)| == |trace|
  {
    if |trace| == 1 {
      FirstDatagram(trace);
    } else {
      var before, x := trace[..|trace| - 1], trace[|trace| - 1];
      assert trace == before + [x];
      TrackerMeaning(before);
      NextDatagram(before, x);
      RecordsSnoc(before, x);
    }
  }

  /** Datagram `i` is counted out of order unless it is a record, and nothing else moves that counter. */
  lemma OutOfOrderUnlessRecord(trace: seq<u64>, i: nat)
    requires BelowMax(trace) && i < |trace|
    ensures Run(trace[..i + 1]).outOfOrder == Run(trace[..i]).outOfOrder + (if IsRecord(trace, i) then 0 else 1)
    ensures Run(trace[..i + 1]).loss > Run(trace[..i]).loss ==> IsRecord(trace, i)
  {
    var before := trace[..i];
    assert trace[..i + 1] == before + [trace[i]];
    if i == 0 {
      FirstDatagram(trace[..1]);
    } else {
      TrackerMeaning(before);
      NextDatagram(before, trace[i]);
      ExceedsLargest(before, trace[i]);
      assert IsRecord(trace, i) <==> forall j | 0 <= j < |before| :: before[j] < trace[i];
    }
  }

  /** Each unit of loss is a number that never arrived or one that first arrived late. */
  lemma {:induction false} LossIsMissingPlusLate(trace: seq<u64>)
    requires trace != [] && BelowMax(trace)
    ensures Run(trace).loss == |Missing(trace)| + |LateNumbers(trace)|
  {
    if |trace| == 1 {
      FirstDatagram(trace);
    } else {
      var before, x := trace[..|trace| - 1], trace[|trace| - 1];
      assert trace == before + [x];
      LossIsMissingPlusLate(before);
      TrackerMeaning(before);
      NextDatagram(before, x);
      MissingSnoc(before, x);
      LateNumbersSnoc(before, x);
    }
  }

  /** Loss never under-reports, and is exact just when nothing in range first arrives late. */
  lemma LossExactIffNoneLate(trace: seq<u64>)
    requires trace != [] && BelowMax(trace)
    ensures Run(trace).loss >= |Missing(trace)|
    ensures Run(trace).loss == |Missing(trace)| <==> LateNumbers(trace) == {}
  {
    LossIsMissingPlusLate(trace);
  }

  /** Loss and duplicates balance missing numbers and late arrivals. */
  lemma {:induction false} LossAndDuplicatesBalance(trace: seq<u64>)
    requires trace != [] && BelowMax(trace)
    ensures Run(trace).loss + |Duplicates(trace)| == |Missing(trace)| + |LateArrivals(trace)|
  {
    if |trace| == 1 {
      FirstDatagram(trace);
    } else {
      var before, x := trace[..|trace| - 1], trace[|trace| - 1];
      assert trace == before + [x];
      LossAndDuplicatesBalance(before);
      TrackerMeaning(before);
      NextDatagram(before, x);
      MissingSnoc(before, x);
      LateArrivalsSnoc(before, x);
      DuplicatesSnoc(before, x);
    }
  }

  lemma RecordsAndLateArrivals(trace: seq<u64>)
    requires trace != []
    ensures |Records(trace)| + |LateArrivals(trace)| <= |trace|
  {
    var all := Interval(0, |trace|);
    forall i | i in LateArrivals(trace)
      ensures i !in Records(trace)
    {
      assert !IsRecord(trace, i);
    }
    assert Records(trace) !! LateArrivals(trace);
    var both := Records(trace) + LateArrivals(trace);
    assert |both| == |Records(trace)| + |LateArrivals(trace)|;
    assert both <= all;
    assert all == both + (all - both);
  }

  /** The two counters bracket the numbers that really went missing. */
  lemma CountersBracketMissing(trace: seq<u64>)
    requires trace != [] && BelowMax(trace)
    ensures Run(trace).loss - Run(trace).outOfOrder <= |Missing(trace)| <= Run(trace).loss
  {
    TrackerMeaning(trace);
    LossIsMissingPlusLate(trace);
    LossAndDuplicatesBalance(trace);
    RecordsAndLateArrivals(trace);
  }

  /** Below the maximum, the exact loss fits the 64-bit counter after every datagram. */
  lemma LossFits(trace: seq<u64>)
    requires BelowMax(trace)
    ensures Run(trace).loss <= U64_MAX
  {
    if trace != [] {
      TrackerMeaning(trace);
      assert exists i :: 0 <= i < |trace| && trace[i] == Largest(trace);
    }
  }
}
