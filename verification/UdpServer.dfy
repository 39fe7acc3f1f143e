/** The UDP receive loop: its counters against the datagrams it was handed. */
module UdpServer {
  import opened MachineInts
  import opened Options
  import opened Codec
  import opened SequenceTracker
  import opened TraceTheorems
  import opened IntervalMeter

  datatype Read = Received(datagram: seq<u8>) | TimedOut | Failed

  /** One turn of the loop: the second at the deadline check, the read, the second after it. */
  datatype Event = Event(checkedAt: u64, read: Read, second: u64)

  datatype Outcome = Running | Finished | NoDatagrams | ReadError

  /** The counters, and the interval lines already printed. */
  datatype Report = Report(rx: u64, loss: u64, outOfOrder: u64, bits: u64, meter: Meter)

  // ---------- What a list of received datagrams adds up to ----------

  datatype Stats = Stats(rx: nat, bits: nat, tracker: Tracker)

  function Receive(st: Stats, datagram: seq<u8>): Stats {
    var number := DecodeU64(datagram);
    Stats(st.rx + 1, st.bits + |datagram| * 8,
          if number.Some? then Track(st.tracker, number.value) else st.tracker)
  }

  function ReceiveAll(datagrams: seq<seq<u8>>): Stats {
    if datagrams == [] then Stats(0, 0, FRESH)
    else Receive(ReceiveAll(datagrams[..|datagrams| - 1]), datagrams[|datagrams| - 1])
  }

  lemma ReceiveSnoc(datagrams: seq<seq<u8>>, d: seq<u8>)
    ensures ReceiveAll([]) == Stats(0, 0, FRESH)
    ensures ReceiveAll(datagrams + [d]) == Receive(ReceiveAll(datagrams), d)
  {
    assert (datagrams + [d])[..|datagrams|] == datagrams;
  }

  /** The sequence numbers of the datagrams long enough to carry one. */
  function Numbers(datagrams: seq<seq<u8>>): seq<u64> {
    if datagrams == [] then []
    else
      var before, number := Numbers(datagrams[..|datagrams| - 1]), DecodeU64(datagrams[|datagrams| - 1]);
      if number.Some? then before + [number.value] else before
  }

  lemma NumbersSnoc(datagrams: seq<seq<u8>>, d: seq<u8>)
    ensures Numbers([]) == []
    ensures |d| < 8 ==> Numbers(datagrams + [d]) == Numbers(datagrams)
    ensures |d| >= 8 ==> DecodeU64(d).Some? && Numbers(datagrams + [d]) == Numbers(datagrams) + [DecodeU64(d).value]
  {
    assert (datagrams + [d])[..|datagrams|] == datagrams;
  }

  function Octets(datagrams: seq<seq<u8>>): nat {
    if datagrams == [] then 0
    else Octets(datagrams[..|datagrams| - 1]) + |datagrams[|datagrams| - 1]|
  }

  ghost function Short(datagrams: seq<seq<u8>>): set<int> {
    set i: int | 0 <= i < |datagrams| && |datagrams[i]| < SEQ_LEN
  }

  lemma ShortSnoc(datagrams: seq<seq<u8>>, d: seq<u8>)
    ensures |Short(datagrams + [d])| == |Short(datagrams)| + (if |d| < SEQ_LEN then 1 else 0)
  {
    var all := datagrams + [d];
    var extra: set<int> := if |d| < SEQ_LEN then {|datagrams|} else {};
    forall i: int
      ensures i in Short(all) <==> i in Short(datagrams) + extra
    {
      if 0 <= i < |datagrams| {
        assert all[i] == datagrams[i];
      }
    }
    assert Short(all) == Short(datagrams) + extra;
  }

  lemma {:induction false} ReceiveAllMeaning(datagrams: seq<seq<u8>>)
    ensures ReceiveAll(datagrams).rx == |datagrams|
    ensures ReceiveAll(datagrams).bits == Octets(datagrams) * 8
    ensures ReceiveAll(datagrams).tracker == Run(Numbers(datagrams))
    ensures |datagrams| == |Short(datagrams)| + |Numbers(datagrams)|
  {
    if datagrams == [] {
      assert Short(datagrams) == {};
    } else {
      var before, d := datagrams[..|datagrams| - 1], datagrams[|datagrams| - 1];
      assert datagrams == before + [d];
      ReceiveAllMeaning(before);
      ShortSnoc(before, d);
      if DecodeU64(d).Some? {
        RunSnoc(Numbers(before), DecodeU64(d).value);
      }
    }
  }

  /** Every datagram is counted once: too short, in order, or out of order. */
  lemma EveryDatagramCounted(datagrams: seq<seq<u8>>)
    requires BelowMax(Numbers(datagrams))
    ensures var st := ReceiveAll(datagrams);
      st.rx == |Short(datagrams)| + |Records(Numbers(datagrams))| + st.tracker.outOfOrder
  {
    ReceiveAllMeaning(datagrams);
    var numbers := Numbers(datagrams);
    if numbers == [] {
      assert Records(numbers) == {};
    } else {
      TrackerMeaning(numbers);
    }
  }

  // ---------- The loop ----------

  lemma OctetsSnoc(datagrams: seq<seq<u8>>, d: seq<u8>)
    ensures Octets([]) == 0
    ensures Octets(datagrams + [d]) == Octets(datagrams) + |d|
  {
    assert (datagrams + [d])[..|datagrams|] == datagrams;
  }

  /** One sample per datagram, of its size. */
  ghost predicate Sized(samples: seq<Sample>, datagrams: seq<seq<u8>>) {
    |samples| == |datagrams| && forall k | 0 <= k < |samples| :: samples[k].bytes == |datagrams[k]|
  }

  lemma {:induction false} SampledOctets(samples: seq<Sample>, datagrams: seq<seq<u8>>)
    requires Sized(samples, datagrams)
    ensures Bytes(samples) == Octets(datagrams)
  {
    if samples != [] {
      var n := |samples| - 1;
      SampledOctets(samples[..n], datagrams[..n]);
    }
  }

  /** A read fills at most the buffer; the rest of a longer datagram is discarded. */
  function Kept(datagram: seq<u8>, bufferSize: nat): (kept: seq<u8>)
    ensures kept <= datagram
    ensures |kept| == if |datagram| < bufferSize then |datagram| else bufferSize
  {
    datagram[..Min(|datagram|, bufferSize)]
  }

  /** The octets the reads return in all: of each datagram, as many as fit the buffer. */
  function ReceivedOctets(events: seq<Event>, bufferSize: nat): nat {
    if events == [] then 0
    else
      var before, e := ReceivedOctets(events[..|events| - 1], bufferSize), events[|events| - 1];
      if e.read.Received? then before + |Kept(e.read.datagram, bufferSize)| else before
  }

  lemma ReceivedOctetsSnoc(events: seq<Event>, e: Event, bufferSize: nat)
    ensures ReceivedOctets([], bufferSize) == 0
    ensures ReceivedOctets(events + [e], bufferSize) == ReceivedOctets(events, bufferSize) +
      match e.read {
        case Received(datagram) => if |datagram| < bufferSize then |datagram| else bufferSize
        case TimedOut => 0
        case Failed => 0
      }
  {
    assert (events + [e])[..|events|] == events;
  }

  /** The events that received something, by position. */
  function Taken(events: seq<Event>): seq<nat> {
    if events == [] then []
    else
      var before, last := Taken(events[..|events| - 1]), |events| - 1;
      if events[last].read.Received? then before + [last] else before
  }

  /** What was read at `e`, if anything, and its sample. */
  function ReadAt(e: Event, bufferSize: nat): seq<seq<u8>> {
    if e.read.Received? then [Kept(e.read.datagram, bufferSize)] else []
  }

  function SampleAt(e: Event, bufferSize: nat): seq<Sample> {
    if e.read.Received? then [Sample(|Kept(e.read.datagram, bufferSize)|, e.second)] else []
  }

  function Reads(events: seq<Event>, bufferSize: nat): seq<seq<u8>> {
    if events == [] then []
    else Reads(events[..|events| - 1], bufferSize) + ReadAt(events[|events| - 1], bufferSize)
  }

  function Samples(events: seq<Event>, bufferSize: nat): seq<Sample> {
    if events == [] then []
    else Samples(events[..|events| - 1], bufferSize) + SampleAt(events[|events| - 1], bufferSize)
  }

  lemma ReadsStep(events: seq<Event>, i: nat, bufferSize: nat)
    requires i < |events|
    ensures Reads(events[..i + 1], bufferSize) == Reads(events[..i], bufferSize) + ReadAt(events[i], bufferSize)
    ensures Samples(events[..i + 1], bufferSize) == Samples(events[..i], bufferSize) + SampleAt(events[i], bufferSize)
  {
    assert events[..i + 1][..i] == events[..i];
  }

  ghost function ReceivedAt(events: seq<Event>): set<int> {
    set i: int | 0 <= i < |events| && events[i].read.Received?
  }

  lemma ReceivedAtSnoc(events: seq<Event>, e: Event)
    ensures |ReceivedAt(events + [e])| == |ReceivedAt(events)| + (if e.read.Received? then 1 else 0)
  {
    var all := events + [e];
    var extra: set<int> := if e.read.Received? then {|events|} else {};
    forall i: int
      ensures i in ReceivedAt(all) <==> i in ReceivedAt(events) + extra
    {
      if 0 <= i < |events| {
        assert all[i] == events[i];
      }
    }
    assert ReceivedAt(all) == ReceivedAt(events) + extra;
  }

  lemma {:induction false} TakenMeaning(events: seq<Event>)
    ensures |Taken(events)| == |ReceivedAt(events)|
    ensures forall j, k | 0 <= j < k < |Taken(events)| :: Taken(events)[j] < Taken(events)[k]
    ensures forall i: nat :: i in Taken(events) <==> i < |events| && events[i].read.Received?
  {
    if events == [] {
      assert ReceivedAt(events) == {};
    } else {
      var before, last := events[..|events| - 1], |events| - 1;
      assert events == before + [events[last]];
      TakenMeaning(before);
      ReceivedAtSnoc(before, events[last]);
      assert forall k | 0 <= k < |Taken(before)| :: Taken(before)[k] in Taken(before);
    }
  }

  /** The k-th datagram kept is the k-th received, cut to the buffer, and sampled at that event's second. */
  lemma {:induction false} ReadsMeaning(events: seq<Event>, bufferSize: nat)
    ensures |Taken(events)| == |Reads(events, bufferSize)| == |Samples(events, bufferSize)|
    ensures forall k | 0 <= k < |Taken(events)| ::
              Taken(events)[k] < |events| && events[Taken(events)[k]].read.Received?
    ensures forall k | 0 <= k < |Taken(events)| ::
              Reads(events, bufferSize)[k] == Kept(events[Taken(events)[k]].read.datagram, bufferSize)
    ensures forall k | 0 <= k < |Taken(events)| ::
              Samples(events, bufferSize)[k] == Sample(|Reads(events, bufferSize)[k]|, events[Taken(events)[k]].second)
  {
    if events != [] {
      ReadsMeaning(events[..|events| - 1], bufferSize);
    }
  }

  lemma TakenOfRun(events: seq<Event>, done: nat)
    requires done <= |events|
    ensures var taken := Taken(events[..done]);
      && |taken| == |set i: int | 0 <= i < done && events[i].read.Received?|
      && (forall j, k | 0 <= j < k < |taken| :: taken[j] < taken[k])
      && (forall i: nat | i < |events| :: i in taken <==> i < done && events[i].read.Received?)
      && (forall k | 0 <= k < |taken| :: taken[k] < done && events[taken[k]].read.Received?)
  {
    var run := events[..done];
    TakenMeaning(run);
    assert ReceivedAt(run) == set i: int | 0 <= i < done && events[i].read.Received?;
    assert forall k | 0 <= k < |Taken(run)| :: Taken(run)[k] in Taken(run);
  }

  lemma ReadsOfRun(events: seq<Event>, done: nat, bufferSize: nat)
    requires done <= |events|
    ensures var taken, datagrams := Taken(events[..done]), Reads(events[..done], bufferSize);
      var samples := Samples(events[..done], bufferSize);
      && |taken| == |datagrams| == |samples|
      && forall k | 0 <= k < |taken| ::
           && taken[k] < done && events[taken[k]].read.Received?
           && datagrams[k] <= events[taken[k]].read.datagram
           && |datagrams[k]| == (if |events[taken[k]].read.datagram| < bufferSize
                                 then |events[taken[k]].read.datagram| else bufferSize)
           && samples[k].bytes == |datagrams[k]| && samples[k].second == events[taken[k]].second
  {
    ReadsMeaning(events[..done], bufferSize);
  }

  lemma {:induction false} OctetsOfReads(events: seq<Event>, bufferSize: nat)
    ensures Octets(Reads(events, bufferSize)) == ReceivedOctets(events, bufferSize)
  {
    if events != [] {
      var before, e := events[..|events| - 1], events[|events| - 1];
      OctetsOfReads(before, bufferSize);
      if e.read.Received? {
        OctetsSnoc(Reads(before, bufferSize), Kept(e.read.datagram, bufferSize));
      } else {
        assert Reads(events, bufferSize) == Reads(before, bufferSize);
      }
    }
  }

  lemma BitsOfReads(events: seq<Event>, bufferSize: nat)
    ensures ReceiveAll(Reads(events, bufferSize)).bits == 8 * ReceivedOctets(events, bufferSize)
  {
    OctetsOfReads(events, bufferSize);
    ReceiveAllMeaning(Reads(events, bufferSize));
  }

  /** The summary's counters, each modulo 2^64, after `datagrams`. */
  ghost predicate Counts(r: Report, datagrams: seq<seq<u8>>) {
    var st := ReceiveAll(datagrams);
    && r.rx == Wrap(st.rx) && r.bits == Wrap(st.bits)
    && r.loss == Wrap(st.tracker.loss) && r.outOfOrder == Wrap(st.tracker.outOfOrder)
  }

  /** Every bit received was printed or is still pending. */
  ghost predicate Balanced(r: Report) {
    Wrap(Sum(r.meter.printed) + r.meter.pending) == r.bits
  }

  /** What the printed summary says about the trace when the receive counter cannot wrap. */
  lemma ReportMeaning(r: Report, datagrams: seq<seq<u8>>)
    requires Counts(r, datagrams)
    requires |datagrams| < TWO_TO_64 && Numbers(datagrams) != [] && BelowMax(Numbers(datagrams))
    ensures var trace := Numbers(datagrams);
      && r.rx == |datagrams|
      && r.loss == |Missing(trace)| + |LateNumbers(trace)|
      && r.loss + |Records(trace)| == HighWater(trace) - trace[0]
      && r.rx == |Short(datagrams)| + |Records(trace)| + r.outOfOrder
      && r.loss - r.outOfOrder <= |Missing(trace)| <= r.loss
  {
    ReceiveAllMeaning(datagrams);
    EveryDatagramCounted(datagrams);
    LossFits(Numbers(datagrams));
    LossIsMissingPlusLate(Numbers(datagrams));
    TrackerMeaning(Numbers(datagrams));
    CountersBracketMissing(Numbers(datagrams));
  }

  /** On any stream: the loss printed is the loss there was exactly when what arrived adds up to 64 bits or less. */
  lemma ReportedLossExactIff(r: Report, datagrams: seq<seq<u8>>)
    requires Counts(r, datagrams)
    ensures r.loss == ReceiveAll(datagrams).tracker.loss <==> ExactLoss(Numbers(datagrams)) <= U64_MAX
    ensures ReceiveAll(datagrams).tracker.loss == ExactLoss(Numbers(datagrams))
  {
    ReceiveAllMeaning(datagrams);
    LossOfRun(Numbers(datagrams));
  }

  ghost predicate GoesOn(e: Event, duration: Option<u64>) {
    !e.read.Failed? && (duration.Some? ==> e.checkedAt < duration.value)
  }

  ghost predicate AllGoOn(events: seq<Event>, n: nat, duration: Option<u64>)
    requires n <= |events|
  {
    forall i | 0 <= i < n :: GoesOn(events[i], duration)
  }

  lemma AllGoOnStep(events: seq<Event>, n: nat, duration: Option<u64>)
    requires n < |events| && AllGoOn(events, n, duration) && GoesOn(events[n], duration)
    ensures AllGoOn(events, n + 1, duration)
  {
  }

  /** The state of the receive loop. `datagrams` is its history. */
  class Receiver {
    var rxCount: u64
    var lossCount: u64
    var outOfOrderCount: u64
    var nextExpected: Option<u64>
    var totalBits: u64
    const intervals: Account
    const buf: array<u8>
    ghost var datagrams: seq<seq<u8>>

    ghost predicate Valid()
      reads this, intervals
    {
      && Holds(ReceiveAll(datagrams))
      && intervals.Valid() && Sized(intervals.samples, datagrams)
    }

    /** The counters hold `st` modulo 2^64. */
    ghost predicate Holds(st: Stats)
      reads this
    {
      rxCount == Wrap(st.rx) && totalBits == Wrap(st.bits) && Tracks(st.tracker)
    }

    /** The tracking fields hold `t`, its counters modulo 2^64. */
    ghost predicate Tracks(t: Tracker)
      reads this
    {
      nextExpected == t.next && lossCount == Wrap(t.loss) && outOfOrderCount == Wrap(t.outOfOrder)
    }

    constructor (bufferSize: nat)
      ensures Valid() && datagrams == [] && intervals.samples == []
      ensures fresh(intervals) && fresh(buf) && buf.Length == bufferSize
    {
      rxCount, lossCount, outOfOrderCount, nextExpected, totalBits := 0, 0, 0, None, 0;
      intervals := new Account();
      buf := new u8[bufferSize](_ => 0);
      datagrams := [];
    }

    /** Fills the buffer from its start, with the datagram or as much of it as fits. */
    method Read(datagram: seq<u8>) returns (n: nat)
      modifies buf
      ensures n == if |datagram| < buf.Length then |datagram| else buf.Length
      ensures buf[..n] == datagram[..n]
    {
      n := Min(|datagram|, buf.Length);
      forall i | 0 <= i < n {
        buf[i] := datagram[i];
      }
    }

    method TrackNumber(number: u64, ghost t: Tracker)
      requires Tracks(t)
      modifies `nextExpected, `lossCount, `outOfOrderCount
      ensures Tracks(Track(t, number))
    {
      var expected := if nextExpected.Some? then nextExpected.value else number;
      if number > expected {
        WrapAdd(t.loss, number - expected);
        lossCount := Wrap(lossCount + (number - expected));
      } else if number < expected {
        WrapAdd(t.outOfOrder, 1);
        outOfOrderCount := Wrap(outOfOrderCount + 1);
      }
      nextExpected := Some(Max(expected, Wrap(number + 1)));
    }

    method Count(n: nat, ghost st: Stats)
      requires rxCount == Wrap(st.rx) && totalBits == Wrap(st.bits)
      modifies `rxCount, `totalBits
      ensures rxCount == Wrap(st.rx + 1) && totalBits == Wrap(st.bits + n * 8)
    {
      WrapAdd(st.rx, 1);
      WrapAdd(st.bits, n * 8);
      rxCount := Wrap(rxCount + 1);
      totalBits := Wrap(totalBits + n * 8);
    }

    /** The body of the loop for a read that returned a datagram. */
    method Step(datagram: seq<u8>, second: u64, ghost st: Stats)
      requires Holds(st) && intervals.Valid()
      modifies this, intervals, buf
      ensures datagrams == old(datagrams)
      ensures var d := Kept(datagram, buf.Length);
        && Holds(Receive(st, d)) && intervals.Valid()
        && intervals.samples == old(intervals.samples) + [Sample(|d|, second)]
    {
      var n := Read(datagram);
      Count(n, st);
      if n >= SEQ_LEN {
        var number := GetSeq(buf[..n]);
        TrackNumber(number.value, st.tracker);
      }
      var _ := intervals.Add(n, second);
    }

    method Accept(datagram: seq<u8>, second: u64)
      requires Valid()
      modifies this, intervals, buf
      ensures Valid()
      ensures var d := Kept(datagram, buf.Length);
        && datagrams == old(datagrams) + [d]
        && intervals.samples == old(intervals.samples) + [Sample(|d|, second)]
    {
      ghost var d := Kept(datagram, buf.Length);
      Step(datagram, second, ReceiveAll(datagrams));
      ReceiveSnoc(datagrams, d);
      datagrams := datagrams + [d];
    }

    /** One turn of the loop. Only a datagram read before the deadline changes anything. */
    method Turn(duration: Option<u64>, e: Event) returns (outcome: Outcome)
      requires Valid()
      modifies this, intervals, buf
      ensures Valid()
      ensures duration.Some? && e.checkedAt >= duration.value ==>
        outcome == if old(rxCount) == 0 then NoDatagrams else Finished
      ensures duration.None? || e.checkedAt < duration.value ==>
        outcome == if e.read.Failed? then ReadError else Running
      ensures outcome == Running ==>
        && GoesOn(e, duration)
        && datagrams == old(datagrams) + ReadAt(e, buf.Length)
        && intervals.samples == old(intervals.samples) + SampleAt(e, buf.Length)
      ensures outcome != Running || !e.read.Received? ==> unchanged(this) && unchanged(intervals)
    {
      if duration.Some? && e.checkedAt >= duration.value {
        return if rxCount == 0 then NoDatagrams else Finished;
      }
      match e.read {
        case Received(datagram) =>
          Accept(datagram, e.second);
          return Running;
        case TimedOut =>
          return Running;
        case Failed =>
          return ReadError;
      }
    }

    /** The counters as they stand. */
    method Summary() returns (report: Report)
      requires Valid()
      ensures report.rx == rxCount
      ensures Counts(report, datagrams) && report.meter == Measure(intervals.samples) && Balanced(report)
    {
      SampledOctets(intervals.samples, datagrams);
      ReceiveAllMeaning(datagrams);
      BitsConserved(intervals.samples);
      report := Report(rxCount, lossCount, outOfOrderCount, totalBits, intervals.Reading());
    }
  }

  /** How the run ends: at the end of the list, at the deadline or on a failed read. */
  ghost predicate EndsWith(events: seq<Event>, duration: Option<u64>, done: nat, outcome: Outcome, rx: u64) {
    && done <= |events| && (outcome == Running <==> done == |events|)
    && AllGoOn(events, done, duration)
    && (done < |events| ==>
          if duration.Some? && events[done].checkedAt >= duration.value
          then outcome == if rx == 0 then NoDatagrams else Finished
          else events[done].read.Failed? && outcome == ReadError)
  }

  /** The loop and the counters it leaves. */
  method ReceiveLoop(bufferSize: nat, duration: Option<u64>, events: seq<Event>)
    returns (outcome: Outcome, report: Report, ghost done: nat)
    ensures EndsWith(events, duration, done, outcome, report.rx)
    ensures Counts(report, Reads(events[..done], bufferSize))
    ensures report.meter == Measure(Samples(events[..done], bufferSize)) && Balanced(report)
  {
    var r := new Receiver(bufferSize);
    outcome := Running;
    var i := 0;
    while i < |events|
      invariant 0 <= i <= |events| && outcome == Running && r.buf.Length == bufferSize
      invariant fresh(r) && fresh(r.buf) && fresh(r.intervals)
      invariant AllGoOn(events, i, duration)
      invariant r.Valid() && r.datagrams == Reads(events[..i], bufferSize)
      invariant r.intervals.samples == Samples(events[..i], bufferSize)
    {
      ReadsStep(events, i, bufferSize);
      outcome := r.Turn(duration, events[i]);
      if outcome != Running {
        break;
      }
      AllGoOnStep(events, i, duration);
      i := i + 1;
    }
    done := i;
    report := r.Summary();
  }

  /**
   The server. `done` events come before the one that ends it, `taken`
   lists those that received something, and `datagrams` and `samples` are what
   was read at each of them and when.
   */
  method RunServer(bufferSize: nat, duration: Option<u64>, events: seq<Event>)
    returns (outcome: Outcome, report: Report, summary: Option<Report>, ghost done: nat,
             ghost taken: seq<nat>, ghost datagrams: seq<seq<u8>>, ghost samples: seq<Sample>)
    // Only the deadline, checked before each read, or a failed read ends the run.
    ensures done <= |events|
    ensures forall i | 0 <= i < done ::
              !events[i].read.Failed? && (duration.Some? ==> events[i].checkedAt < duration.value)
    ensures outcome == Running <==> done == |events|
    ensures done < |events| ==>
      if duration.Some? && events[done].checkedAt >= duration.value
      then outcome == if report.rx == 0 then NoDatagrams else Finished
      else events[done].read.Failed? && outcome == ReadError
    // The summary is printed at the deadline only, with or without datagrams; never after a read error.
    ensures summary == if outcome == Finished || outcome == NoDatagrams then Some(report) else None
    // What was read: each datagram received, in order, or as much of it as the buffer holds.
    ensures |taken| == |datagrams| == |samples|
    ensures forall j, k | 0 <= j < k < |taken| :: taken[j] < taken[k]
    ensures forall i: nat | i < |events| :: i in taken <==> i < done && events[i].read.Received?
    ensures forall k | 0 <= k < |taken| ::
              && taken[k] < done && events[taken[k]].read.Received?
              && datagrams[k] <= events[taken[k]].read.datagram
              && |datagrams[k]| == (if |events[taken[k]].read.datagram| < bufferSize
                                    then |events[taken[k]].read.datagram| else bufferSize)
              && samples[k].bytes == |datagrams[k]| && samples[k].second == events[taken[k]].second
    // The counters, modulo 2^64.
    ensures report.rx == Wrap(|set i: int | 0 <= i < done && events[i].read.Received?|)
    ensures report.bits == Wrap(8 * ReceivedOctets(events[..done], bufferSize))
    ensures report.loss == Wrap(Run(Numbers(datagrams)).loss)
    ensures report.outOfOrder == Wrap(Run(Numbers(datagrams)).outOfOrder)
    ensures Counts(report, datagrams)
    ensures report.meter == Measure(samples) && Balanced(report)
  {
    outcome, report, done := ReceiveLoop(bufferSize, duration, events);
    ghost var run := events[..done];
    taken, datagrams, samples := Taken(run), Reads(run, bufferSize), Samples(run, bufferSize);
    TakenOfRun(events, done);
    ReadsOfRun(events, done, bufferSize);
    BitsOfReads(run, bufferSize);
    ReceiveAllMeaning(datagrams);
    summary := if outcome == Finished || outcome == NoDatagrams then Some(report) else None;
  }
}
