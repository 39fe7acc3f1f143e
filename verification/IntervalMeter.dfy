/**
 The once-a-second report that both clients and both servers keep: bits pending
 since the last report, printed and cleared when the elapsed second moves on.
 The source prints a rate; here each printed value is appended to a log.
 */
module IntervalMeter {
  import opened MachineInts

  /** One successful send or receive and the whole second read from the clock after it. */
  datatype Sample = Sample(bytes: nat, second: u64)

  datatype Meter = Meter(second: u64, pending: u64, printed: seq<u64>)

  const START: Meter := Meter(0, 0, [])

  function Tick(m: Meter, s: Sample): Meter {
    var pending := Wrap(m.pending + s.bytes * 8);
    if s.second > m.second then Meter(s.second, 0, m.printed + [pending])
    else Meter(m.second, pending, m.printed)
  }

  function Measure(samples: seq<Sample>): Meter {
    if samples == [] then START
    else Tick(Measure(samples[..|samples| - 1]), samples[|samples| - 1])
  }

  lemma MeasureSnoc(samples: seq<Sample>, s: Sample)
    ensures Measure(samples + [s]) == Tick(Measure(samples), s)
  {
    assert (samples + [s])[..|samples|] == samples;
  }

  function Sum(values: seq<nat>): nat {
    if values == [] then 0 else Sum(values[..|values| - 1]) + values[|values| - 1]
  }

  lemma SumSnoc(values: seq<nat>, v: nat)
    ensures Sum(values + [v]) == Sum(values) + v
  {
    assert (values + [v])[..|values|] == values;
  }

  function Bytes(samples: seq<Sample>): nat {
    if samples == [] then 0 else Bytes(samples[..|samples| - 1]) + samples[|samples| - 1].bytes
  }

  lemma BytesSnoc(samples: seq<Sample>, s: Sample)
    ensures Bytes(samples + [s]) == Bytes(samples) + s.bytes
  {
    assert (samples + [s])[..|samples|] == samples;
  }

  lemma EmptySums()
    ensures Sum([]) == 0 && Bytes([]) == 0 && Measure([]) == Meter(0, 0, [])
  {
  }

  lemma WrapSum(a: nat, b: nat, c: nat, x: nat)
    requires Wrap(a + b) == Wrap(c)
    ensures Wrap(a + Wrap(b + x)) == Wrap(c + x)
  {
    WrapAdd(b + x, a);
    WrapAdd(a + b, x);
    WrapAdd(c, x);
  }

  lemma TickConserves(m: Meter, s: Sample, bits: nat)
    requires Wrap(Sum(m.printed) + m.pending) == Wrap(bits)
    ensures Wrap(Sum(Tick(m, s).printed) + Tick(m, s).pending) == Wrap(bits + s.bytes * 8)
  {
    WrapSum(Sum(m.printed), m.pending, bits, s.bytes * 8);
    SumSnoc(m.printed, Wrap(m.pending + s.bytes * 8));
  }

  /** Every bit is printed or still pending, up to 64-bit wrap-around. */
  lemma {:induction false} BitsConserved(samples: seq<Sample>)
    ensures Wrap(Sum(Measure(samples).printed) + Measure(samples).pending) == Wrap(Bytes(samples) * 8)
  {
    if samples != [] {
      var before := samples[..|samples| - 1];
      BitsConserved(before);
      TickConserves(Measure(before), samples[|samples| - 1], Bytes(before) * 8);
    }
  }

  /** When the total fits 64 bits, exactly. */
  lemma {:induction false} BitsConservedExactly(samples: seq<Sample>)
    requires Bytes(samples) * 8 < TWO_TO_64
    ensures var m := Measure(samples); Sum(m.printed) + m.pending == Bytes(samples) * 8
  {
    if samples != [] {
      var before, s := samples[..|samples| - 1], samples[|samples| - 1];
      BitsConservedExactly(before);
      SumSnoc(Measure(before).printed, Wrap(Measure(before).pending + s.bytes * 8));
    }
  }

  /** Sample `i` shows a later second than the start and every sample before it. */
  ghost predicate NewSecond(samples: seq<Sample>, i: int)
    requires 0 <= i < |samples|
  {
    samples[i].second > 0 && forall j | 0 <= j < i :: samples[j].second < samples[i].second
  }

  ghost function NewSeconds(samples: seq<Sample>): set<int> {
    set i: int | 0 <= i < |samples| && NewSecond(samples, i)
  }

  lemma NewSecondSnoc(samples: seq<Sample>, s: Sample, m: nat)
    requires forall j | 0 <= j < |samples| :: samples[j].second <= m
    requires m == 0 || exists j :: 0 <= j < |samples| && samples[j].second == m
    ensures NewSecond(samples + [s], |samples|) <==> s.second > m
    ensures forall i | 0 <= i < |samples| :: NewSecond(samples + [s], i) <==> NewSecond(samples, i)
  {
    var t := samples + [s];
    assert forall j {:trigger samples[j]} {:trigger t[j]} :: 0 <= j < |samples| ==> t[j] == samples[j];
  }

  lemma NewSecondsSnoc(samples: seq<Sample>, s: Sample, m: nat)
    requires forall j | 0 <= j < |samples| :: samples[j].second <= m
    requires m == 0 || exists j :: 0 <= j < |samples| && samples[j].second == m
    ensures |NewSeconds(samples + [s])| == |NewSeconds(samples)| + (if s.second > m then 1 else 0)
  {
    var t := samples + [s];
    NewSecondSnoc(samples, s, m);
    var extra: set<int> := if s.second > m then {|samples|} else {};
    forall i: int
      ensures i in NewSeconds(t) <==> i in NewSeconds(samples) + extra
    {
    }
    assert NewSeconds(t) == NewSeconds(samples) + extra;
    assert |samples| !in NewSeconds(samples);
  }

  /** For any clock readings: the meter holds the latest second seen, and one line was printed per new second. */
  lemma {:induction false} OneLinePerNewSecond(samples: seq<Sample>)
    ensures var m := Measure(samples);
      && (forall j | 0 <= j < |samples| :: samples[j].second <= m.second)
      && (m.second == 0 || exists j :: 0 <= j < |samples| && samples[j].second == m.second)
      && |m.printed| == |NewSeconds(samples)|
  {
    if samples == [] {
      assert NewSeconds(samples) == {};
    } else {
      var before, s := samples[..|samples| - 1], samples[|samples| - 1];
      assert samples == before + [s];
      OneLinePerNewSecond(before);
      var m := Measure(before);
      NewSecondsSnoc(before, s, m.second);
      if s.second > m.second {
        assert samples[|samples| - 1].second == s.second;
      } else if m.second != 0 {
        var j :| 0 <= j < |before| && before[j].second == m.second;
        assert samples[j].second == m.second;
      }
    }
  }

  /** The line is the bits of the samples between two positions, modulo 2^64. */
  ghost predicate IsLine(line: u64, samples: seq<Sample>, from: nat, to: nat) {
    from < to <= |samples| && line == Wrap(8 * Bytes(samples[from..to]))
  }

  /** Line `k` of `printed` covers the samples between the cuts `k` and `k + 1`. */
  ghost predicate Covers(printed: seq<u64>, cuts: seq<nat>, samples: seq<Sample>) {
    && |cuts| == |printed| + 1 && cuts[0] == 0
    && forall k | 0 <= k < |printed| :: IsLine(printed[k], samples, cuts[k], cuts[k + 1])
  }

  /** The cuts after the first are those behind a sample that shows a new latest second. */
  ghost predicate CutAtNew(cuts: seq<nat>, samples: seq<Sample>) {
    && (forall c | c in cuts :: c <= |samples|)
    && (forall c: nat | 0 < c <= |samples| :: c in cuts <==> NewSecond(samples, c - 1))
  }

  lemma CutAtNewSnoc(cuts: seq<nat>, samples: seq<Sample>, s: Sample, m: nat)
    requires CutAtNew(cuts, samples)
    requires forall j | 0 <= j < |samples| :: samples[j].second <= m
    requires m == 0 || exists j :: 0 <= j < |samples| && samples[j].second == m
    ensures CutAtNew(if s.second > m then cuts + [|samples| + 1] else cuts, samples + [s])
  {
    NewSecondSnoc(samples, s, m);
    var all := cuts + [|samples| + 1];
    assert all[|cuts|] == |samples| + 1;
    assert forall c :: c in all <==> c in cuts || c == |samples| + 1;
  }

  /** The samples from `from` on are pending. */
  ghost predicate Pends(pending: u64, from: nat, samples: seq<Sample>) {
    from <= |samples| && pending == Wrap(8 * Bytes(samples[from..]))
  }

  lemma PendsSnoc(pending: u64, from: nat, samples: seq<Sample>, s: Sample)
    requires Pends(pending, from, samples)
    ensures Pends(Wrap(pending + s.bytes * 8), from, samples + [s])
  {
    assert (samples + [s])[from..] == samples[from..] + [s];
    BytesSnoc(samples[from..], s);
    WrapAdd(8 * Bytes(samples[from..]), s.bytes * 8);
  }

  lemma CoversSnoc(printed: seq<u64>, cuts: seq<nat>, samples: seq<Sample>, s: Sample)
    requires Covers(printed, cuts, samples)
    ensures Covers(printed, cuts, samples + [s])
  {
    var all := samples + [s];
    forall k | 0 <= k < |printed|
      ensures IsLine(printed[k], all, cuts[k], cuts[k + 1])
    {
      assert IsLine(printed[k], samples, cuts[k], cuts[k + 1]);
      assert all[cuts[k]..cuts[k + 1]] == samples[cuts[k]..cuts[k + 1]];
    }
  }

  lemma CoversLine(printed: seq<u64>, cuts: seq<nat>, samples: seq<Sample>, line: u64)
    requires Covers(printed, cuts, samples) && cuts[|printed|] < |samples| && Pends(line, cuts[|printed|], samples)
    ensures Covers(printed + [line], cuts + [|samples|], samples)
    ensures Pends(0, |samples|, samples)
  {
    var from := cuts[|printed|];
    assert samples[from..|samples|] == samples[from..];
    assert samples[|samples|..] == [];
  }

  ghost predicate AreLines(cuts: seq<nat>, samples: seq<Sample>, m: Meter) {
    Covers(m.printed, cuts, samples) && Pends(m.pending, cuts[|m.printed|], samples)
  }

  lemma AreLinesSnoc(cuts: seq<nat>, samples: seq<Sample>, m: Meter, s: Sample)
    requires AreLines(cuts, samples, m)
    ensures AreLines(if s.second > m.second then cuts + [|samples| + 1] else cuts, samples + [s], Tick(m, s))
  {
    PendsSnoc(m.pending, cuts[|m.printed|], samples, s);
    CoversSnoc(m.printed, cuts, samples, s);
    if s.second > m.second {
      CoversLine(m.printed, cuts, samples + [s], Wrap(m.pending + s.bytes * 8));
    }
  }

  lemma {:induction false} FindLines(samples: seq<Sample>) returns (cuts: seq<nat>)
    ensures AreLines(cuts, samples, Measure(samples)) && CutAtNew(cuts, samples)
  {
    if samples == [] {
      cuts := [0];
    } else {
      var before, s := samples[..|samples| - 1], samples[|samples| - 1];
      assert samples == before + [s];
      cuts := FindLines(before);
      var m := Measure(before);
      OneLinePerNewSecond(before);
      AreLinesSnoc(cuts, before, m, s);
      CutAtNewSnoc(cuts, before, s, m.second);
      if s.second > m.second {
        cuts := cuts + [|samples|];
      }
    }
  }

  /**
   What each line says: the samples are cut behind every one that shows a new
   latest second, each line is the bits between two cuts, and the bits after the
   last cut are pending, all modulo 2^64.
   */
  lemma LinesMeaning(samples: seq<Sample>) returns (cuts: seq<nat>)
    ensures |cuts| == |Measure(samples).printed| + 1 && cuts[0] == 0
    ensures forall k | 0 <= k < |cuts| :: cuts[k] <= |samples|
    ensures forall c: nat | 0 < c <= |samples| ::
              c in cuts <==>
              samples[c - 1].second > 0 && forall j | 0 <= j < c - 1 :: samples[j].second < samples[c - 1].second
    ensures forall k {:trigger Measure(samples).printed[k]} | 0 <= k < |cuts| - 1 ::
              cuts[k] < cuts[k + 1]
              && Measure(samples).printed[k] == Wrap(8 * Bytes(samples[cuts[k]..cuts[k + 1]]))
    ensures Measure(samples).pending == Wrap(8 * Bytes(samples[cuts[|cuts| - 1]..]))
  {
    cuts := FindLines(samples);
    var printed := Measure(samples).printed;
    assert forall k | 0 <= k < |cuts| :: cuts[k] in cuts;
    forall c: nat | 0 < c <= |samples|
      ensures c in cuts <==> NewSecond(samples, c - 1)
    {
    }
    forall k | 0 <= k < |cuts| - 1
      ensures cuts[k] < cuts[k + 1] && printed[k] == Wrap(8 * Bytes(samples[cuts[k]..cuts[k + 1]]))
    {
      assert IsLine(printed[k], samples, cuts[k], cuts[k + 1]);
    }
  }

  /** The samples of a client run that ends by reaching `duration`. */
  ghost predicate EndsAt(samples: seq<Sample>, duration: u64) {
    && samples != []
    && samples[|samples| - 1].second >= duration
    && forall i | 0 <= i < |samples| - 1 :: samples[i].second < duration
  }

  /** A positive duration leaves nothing pending at the exit, whatever the clock showed in between. */
  lemma ExitFlushes(samples: seq<Sample>, duration: u64)
    requires EndsAt(samples, duration) && duration > 0
    ensures Measure(samples).pending == 0
    ensures Wrap(Sum(Measure(samples).printed)) == Wrap(Bytes(samples) * 8)
  {
    OneLinePerNewSecond(samples[..|samples| - 1]);
    BitsConserved(samples);
  }

  /** The printed total is exact for every run of the given duration only if that duration is positive. */
  lemma ExitTotalExactIff(duration: u64)
    ensures (forall samples: seq<Sample> | EndsAt(samples, duration) ::
               Wrap(Sum(Measure(samples).printed)) == Wrap(Bytes(samples) * 8))
       <==> duration > 0
  {
    if duration > 0 {
      forall samples: seq<Sample> | EndsAt(samples, duration)
        ensures Wrap(Sum(Measure(samples).printed)) == Wrap(Bytes(samples) * 8)
      {
        ExitFlushes(samples, duration);
      }
    } else {
      var lost := [Sample(1, 0)];
      assert Measure(lost[..0]) == START && Bytes(lost[..0]) == 0;
      assert EndsAt(lost, duration) && Sum(Measure(lost).printed) == 0 && Bytes(lost) == 1;
    }
  }

  /** The interval variables of a send or receive loop. `samples` is their history. */
  class Account {
    var interval: u64
    var intervalSent: u64
    var printed: seq<u64>
    ghost var samples: seq<Sample>

    ghost predicate Valid()
      reads this
    {
      Reading() == Measure(samples)
    }

    function Reading(): Meter
      reads this
    {
      Meter(interval, intervalSent, printed)
    }

    constructor ()
      ensures Valid() && samples == []
    {
      interval, intervalSent, printed, samples := 0, 0, [], [];
    }

    /** Counts `n` bytes; `report` is the value printed, 0 when nothing is. */
    method Add(n: nat, second: u64) returns (report: u64)
      requires Valid()
      modifies this
      ensures Valid() && samples == old(samples) + [Sample(n, second)]
      ensures (printed == old(printed) && report == 0) || printed == old(printed) + [report]
    {
      MeasureSnoc(samples, Sample(n, second));
      samples := samples + [Sample(n, second)];
      intervalSent := Wrap(intervalSent + n * 8);
      report := 0;
      if second > interval {
        interval := second;
        report := intervalSent;
        printed := printed + [intervalSent];
        intervalSent := 0;
      }
    }
  }
}
