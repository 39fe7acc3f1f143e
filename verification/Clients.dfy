/** The UDP and TCP send loops: stamped datagrams and interval accounting. */
module Clients {
  import opened MachineInts
  import opened Options
  import opened Codec
  import opened IntervalMeter

  /** One turn of a send loop: the bytes the socket took and the second read after it, or an error. */
  datatype Attempt = Sent(bytes: nat, second: u64) | SendFailed

  datatype Outcome = Running | Finished | SendError

  /** The successful attempts, as samples. */
  function Samples(attempts: seq<Attempt>): seq<Sample> {
    if attempts == [] then []
    else
      var before, a := Samples(attempts[..|attempts| - 1]), attempts[|attempts| - 1];
      if a.Sent? then before + [Sample(a.bytes, a.second)] else before
  }

  /** The first `n` attempts were sent, each read before the duration. */
  ghost predicate AllGoOn(attempts: seq<Attempt>, n: nat, duration: u64) {
    n <= |attempts| && forall i | 0 <= i < n :: attempts[i].Sent? && attempts[i].second < duration
  }

  /** The loop made `done` successful sends and stands at `outcome`. */
  ghost predicate RunOf(attempts: seq<Attempt>, duration: u64, done: nat, outcome: Outcome) {
    match outcome
    case Running => AllGoOn(attempts, done, duration)
    case Finished =>
      && 0 < done <= |attempts| && AllGoOn(attempts, done - 1, duration)
      && attempts[done - 1].Sent? && attempts[done - 1].second >= duration
    case SendError =>
      AllGoOn(attempts, done, duration) && done < |attempts| && attempts[done].SendFailed?
  }

  /** `outcome` is how the turn for `a` leaves the loop. */
  ghost predicate Leaves(a: Attempt, duration: u64, outcome: Outcome) {
    match a
    case SendFailed => outcome == SendError
    case Sent(_, second) => if second < duration then outcome == Running else outcome == Finished
  }

  /** One turn carries a run one step on. */
  lemma RunStep(attempts: seq<Attempt>, duration: u64, i: nat, outcome: Outcome)
    requires i < |attempts| && RunOf(attempts, duration, i, Running) && Leaves(attempts[i], duration, outcome)
    ensures RunOf(attempts, duration, if attempts[i].SendFailed? then i else i + 1, outcome)
    ensures Samples(attempts[..i + 1]) == Samples(attempts[..i])
         + if attempts[i].SendFailed? then [] else [Sample(attempts[i].bytes, attempts[i].second)]
  {
    assert attempts[..i + 1][..i] == attempts[..i];
  }

  /** Attempts that all succeeded are sampled one by one. */
  lemma {:induction false} SamplesOfSent(attempts: seq<Attempt>)
    requires forall i | 0 <= i < |attempts| :: attempts[i].Sent?
    ensures |Samples(attempts)| == |attempts|
    ensures forall i | 0 <= i < |attempts| :: Samples(attempts)[i] == Sample(attempts[i].bytes, attempts[i].second)
  {
    if attempts != [] {
      SamplesOfSent(attempts[..|attempts| - 1]);
    }
  }

  /** What ended the run, and its samples, attempt by attempt. */
  lemma RunMeaning(attempts: seq<Attempt>, duration: u64, done: nat, outcome: Outcome)
    requires RunOf(attempts, duration, done, outcome)
    ensures done <= |attempts| && forall i | 0 <= i < done :: attempts[i].Sent?
    ensures var samples := Samples(attempts[..done]);
      |samples| == done
      && forall i | 0 <= i < done :: samples[i].bytes == attempts[i].bytes && samples[i].second == attempts[i].second
    ensures match outcome
      case Running => forall i | 0 <= i < done :: attempts[i].second < duration
      case Finished =>
        && done > 0 && attempts[done - 1].second >= duration
        && forall i | 0 <= i < done - 1 :: attempts[i].second < duration
      case SendError =>
        && done < |attempts| && attempts[done].SendFailed?
        && forall i | 0 <= i < done :: attempts[i].second < duration
  {
    SamplesOfSent(attempts[..done]);
  }

  /** A run is finished exactly when its last send, and no earlier one, was read at the duration or later. */
  lemma FinishedIff(attempts: seq<Attempt>, duration: u64, done: nat)
    requires done <= |attempts|
    ensures RunOf(attempts, duration, done, Finished)
       <==> (forall i | 0 <= i < done :: attempts[i].Sent?) && EndsAt(Samples(attempts[..done]), duration)
  {
    if forall i | 0 <= i < done :: attempts[i].Sent? {
      SamplesOfSent(attempts[..done]);
      var samples := Samples(attempts[..done]);
      assert forall i | 0 <= i < done :: samples[i].second == attempts[i].second;
      assert forall i | 0 <= i < done :: attempts[i].second == samples[i].second;
    }
  }

  /** A finished run of positive duration has reported every bit it sent. */
  lemma FinishedReportsAll(attempts: seq<Attempt>, duration: u64, done: nat)
    requires RunOf(attempts, duration, done, Finished) && duration > 0
    ensures var samples := Samples(attempts[..done]);
      Measure(samples).pending == 0 && Wrap(Sum(Measure(samples).printed)) == Wrap(Bytes(samples) * 8)
  {
    FinishedIff(attempts, duration, done);
    ExitFlushes(Samples(attempts[..done]), duration);
  }

  /** The accounting shared by both send loops. */
  class SendAccount {
    const intervals: Account
    var total: u64

    ghost predicate Valid()
      reads this, intervals
    {
      intervals.Valid() && total == Wrap(Sum(intervals.printed))
    }

    constructor ()
      ensures Valid() && intervals.samples == [] && fresh(intervals)
    {
      intervals := new Account();
      total := 0;
    }

    /** The part of a turn after the send. */
    method Turn(a: Attempt, duration: u64) returns (outcome: Outcome)
      requires Valid()
      modifies this, intervals
      ensures Valid() && Leaves(a, duration, outcome)
      ensures a.SendFailed? ==> outcome == SendError && intervals.samples == old(intervals.samples)
      ensures a.Sent? ==>
        && outcome == (if a.second >= duration then Finished else Running)
        && intervals.samples == old(intervals.samples) + [Sample(a.bytes, a.second)]
    {
      if a.SendFailed? {
        return SendError;
      }
      ghost var before := intervals.printed;
      var report := intervals.Add(a.bytes, a.second);
      WrapAdd(Sum(before), report);
      SumSnoc(before, report);
      total := Wrap(total + report);
      outcome := if a.second >= duration then Finished else Running;
    }

    /** The end of a client: the total, against everything sent. A failed send ends it before its last line. */
    method Close(outcome: Outcome, ghost attempts: seq<Attempt>, duration: u64, ghost done: nat)
      returns (result: Result)
      requires Valid() && RunOf(attempts, duration, done, outcome)
      requires intervals.samples == Samples(attempts[..done])
      ensures result.outcome == outcome && IsResult(result, Samples(attempts[..done]), duration)
    {
      if outcome == Finished && duration > 0 {
        FinishedReportsAll(attempts, duration, done);
      }
      result := Result(outcome, total, if outcome == Finished then Some(total) else None, intervals.Reading());
    }
  }

  /** `shown` is the total in the client's last line, which only a finished run prints. */
  datatype Result = Result(outcome: Outcome, total: u64, shown: Option<u64>, meter: Meter)

  /** The meter and total of a run with these samples; a finished one of positive duration left nothing out. */
  ghost predicate IsResult(r: Result, samples: seq<Sample>, duration: u64) {
    && r.meter == Measure(samples)
    && r.total == Wrap(Sum(r.meter.printed))
    && r.shown == (if r.outcome == Finished then Some(r.total) else None)
    && (r.outcome == Finished && duration > 0 ==> r.meter.pending == 0 && r.total == Wrap(Bytes(samples) * 8))
  }

  /** The TCP client. `done` counts its successful sends and `samples` is what they were. */
  method RunTcpClient(duration: u64, attempts: seq<Attempt>)
    returns (result: Result, done: nat, ghost samples: seq<Sample>)
    // It goes on until a send is read at the duration or fails.
    ensures done <= |attempts| && forall i | 0 <= i < done :: attempts[i].Sent?
    ensures match result.outcome
      case Running => done == |attempts| && forall i | 0 <= i < done :: attempts[i].second < duration
      case Finished =>
        && done > 0 && attempts[done - 1].second >= duration
        && forall i | 0 <= i < done - 1 :: attempts[i].second < duration
      case SendError =>
        && done < |attempts| && attempts[done].SendFailed?
        && forall i | 0 <= i < done :: attempts[i].second < duration
    // It has accounted for exactly its sends.
    ensures |samples| == done
    ensures forall i | 0 <= i < done ::
              samples[i].bytes == attempts[i].bytes && samples[i].second == attempts[i].second
    ensures result.meter == Measure(samples) && result.total == Wrap(Sum(result.meter.printed))
    ensures result.outcome == Finished <==> EndsAt(samples, duration)
    // The last line is a finished run's, and with a positive duration it misses nothing.
    ensures result.shown == if result.outcome == Finished then Some(result.total) else None
    ensures result.outcome == Finished && duration > 0 ==>
      result.meter.pending == 0 && result.total == Wrap(Bytes(samples) * 8)
  {
    var account := new SendAccount();
    var outcome := Running;
    var i := 0;
    while i < |attempts| && outcome == Running
      invariant RunOf(attempts, duration, i, outcome)
      invariant fresh(account) && fresh(account.intervals)
      invariant account.Valid() && account.intervals.samples == Samples(attempts[..i])
      decreases |attempts| - i, outcome == Running
    {
      outcome := account.Turn(attempts[i], duration);
      RunStep(attempts, duration, i, outcome);
      if outcome != SendError {
        i := i + 1;
      }
    }
    done, samples := i, Samples(attempts[..i]);
    result := account.Close(outcome, attempts, duration, done);
    RunMeaning(attempts, duration, done, outcome);
    FinishedIff(attempts, duration, done);
  }

  /** What the socket was handed on each successful send. */
  ghost predicate IsWire(wire: seq<seq<u8>>, size: nat)
    requires size >= SEQ_LEN
  {
    forall k | 0 <= k < |wire| :: wire[k] == Frame(size, Wrap(k))
  }

  /** The k-th datagram decodes to k, modulo 2^64, and is filler after its prefix. */
  lemma WireDecodes(wire: seq<seq<u8>>, size: nat, k: nat)
    requires size >= SEQ_LEN && IsWire(wire, size) && k < |wire|
    ensures |wire[k]| == size && DecodeU64(wire[k]) == Some(Wrap(k))
    ensures forall i | 8 <= i < size :: wire[k][i] == "muffin "[i % 7] as int
  {
    FrameDecodes(size, Wrap(k), size);
    PrefixRoundTrips(Filler(size), Wrap(k));
    assert wire[k][..size] == wire[k];
    FillerSpells(size);
    forall i | 8 <= i < size
      ensures wire[k][i] == Filler(size)[i]
    {
      assert wire[k][i] == wire[k][SEQ_LEN..][i - SEQ_LEN];
      assert Filler(size)[i] == Filler(size)[SEQ_LEN..][i - SEQ_LEN];
    }
  }

  lemma WireSnoc(wire: seq<seq<u8>>, size: nat, datagram: seq<u8>)
    requires size >= SEQ_LEN && IsWire(wire, size) && datagram == Frame(size, Wrap(|wire|))
    ensures IsWire(wire + [datagram], size)
  {
  }

  /** Past its prefix, the send buffer is the filler. */
  ghost predicate IsFilled(buf: seq<u8>) {
    |buf| >= SEQ_LEN && buf[SEQ_LEN..] == Filler(|buf|)[SEQ_LEN..]
  }

  /** The send buffer, rewritten in place for every datagram. */
  class Stamper {
    const buf: array<u8>
    var number: u64

    /** The next datagram is the `k`-th. */
    ghost predicate Valid(k: nat)
      reads this, buf
    {
      IsFilled(buf[..]) && number == Wrap(k)
    }

    constructor (size: nat)
      requires size >= SEQ_LEN
      ensures Valid(0) && buf.Length == size && fresh(buf)
    {
      var b := Buffer(size);
      buf := b;
      number := 0;
    }

    method Next(ghost k: nat) returns (datagram: seq<u8>)
      requires Valid(k)
      modifies this, buf
      ensures Valid(k + 1) && datagram == Frame(buf.Length, Wrap(k))
    {
      RestampedFrame(buf.Length, buf[..], number);
      PutSeq(buf, number);
      WrapAdd(k, 1);
      number := Wrap(number + 1);
      datagram := buf[..];
    }
  }

  /** The UDP send loop's state. `wire` logs what the socket was handed. */
  class UdpSender {
    const stamper: Stamper
    const account: SendAccount
    var wire: seq<seq<u8>>

    ghost predicate Valid()
      reads this, stamper, stamper.buf, account, account.intervals
    {
      && account.Valid()
      && stamper.buf.Length >= SEQ_LEN && IsWire(wire, stamper.buf.Length)
    }

    constructor (size: nat)
      requires size >= SEQ_LEN
      ensures Valid() && stamper.buf.Length == size && stamper.Valid(0)
      ensures wire == [] && account.intervals.samples == []
      ensures fresh(stamper) && fresh(stamper.buf) && fresh(account) && fresh(account.intervals)
    {
      stamper := new Stamper(size);
      account := new SendAccount();
      wire := [];
    }

    method Turn(a: Attempt, duration: u64) returns (outcome: Outcome)
      requires Valid() && stamper.Valid(|wire|)
      modifies this, stamper, stamper.buf, account, account.intervals
      ensures Valid() && Leaves(a, duration, outcome)
      ensures a.SendFailed? ==> wire == old(wire) && account.intervals.samples == old(account.intervals.samples)
      ensures a.Sent? ==>
        && |wire| == |old(wire)| + 1 && stamper.Valid(|wire|)
        && account.intervals.samples == old(account.intervals.samples) + [Sample(a.bytes, a.second)]
    {
      var datagram := stamper.Next(|wire|);
      outcome := account.Turn(a, duration);
      if outcome != SendError {
        WireSnoc(wire, stamper.buf.Length, datagram);
        wire := wire + [datagram];
      }
    }
  }

  /** The UDP client. `wire` is what it sent and `samples` how the sends went. */
  method RunUdpClient(bufferSize: nat, duration: u64, attempts: seq<Attempt>)
    returns (result: Result, wire: seq<seq<u8>>, ghost samples: seq<Sample>)
    requires bufferSize >= SEQ_LEN
    // It goes on until a send is read at the duration or fails.
    ensures |wire| <= |attempts| && forall i | 0 <= i < |wire| :: attempts[i].Sent?
    ensures match result.outcome
      case Running => |wire| == |attempts| && forall i | 0 <= i < |wire| :: attempts[i].second < duration
      case Finished =>
        && wire != [] && attempts[|wire| - 1].second >= duration
        && forall i | 0 <= i < |wire| - 1 :: attempts[i].second < duration
      case SendError =>
        && |wire| < |attempts| && attempts[|wire|].SendFailed?
        && forall i | 0 <= i < |wire| :: attempts[i].second < duration
    // Each datagram carries its number, in order.
    ensures IsWire(wire, bufferSize)
    // It has accounted for exactly its sends.
    ensures |samples| == |wire|
    ensures forall i | 0 <= i < |wire| ::
              samples[i].bytes == attempts[i].bytes && samples[i].second == attempts[i].second
    ensures result.meter == Measure(samples) && result.total == Wrap(Sum(result.meter.printed))
    ensures result.outcome == Finished <==> EndsAt(samples, duration)
    // The last line is a finished run's, and with a positive duration it misses nothing.
    ensures result.shown == if result.outcome == Finished then Some(result.total) else None
    ensures result.outcome == Finished && duration > 0 ==>
      result.meter.pending == 0 && result.total == Wrap(Bytes(samples) * 8)
  {
    var sender := new UdpSender(bufferSize);
    var outcome := Running;
    var i := 0;
    while i < |attempts| && outcome == Running
      invariant RunOf(attempts, duration, i, outcome) && i == |sender.wire|
      invariant sender.stamper.buf.Length == bufferSize && fresh(sender) && fresh(sender.stamper)
      invariant fresh(sender.stamper.buf) && fresh(sender.account) && fresh(sender.account.intervals)
      invariant sender.Valid() && sender.account.intervals.samples == Samples(attempts[..i])
      invariant outcome == Running ==> sender.stamper.Valid(i)
      decreases |attempts| - i, outcome == Running
    {
      outcome := sender.Turn(attempts[i], duration);
      RunStep(attempts, duration, i, outcome);
      if outcome != SendError {
        i := i + 1;
      }
    }
    wire, samples := sender.wire, Samples(attempts[..i]);
    result := sender.account.Close(outcome, attempts, duration, i);
    RunMeaning(attempts, duration, i, outcome);
    FinishedIff(attempts, duration, i);
  }
}
