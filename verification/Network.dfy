/**
 The whole system: the sending client, a network that may drop, duplicate and
 reorder, and the receiving server, as a relation between states.
 */
module Network {
  import opened MachineInts
  import opened Options
  import opened Codec
  import opened SequenceTracker
  import opened TraceTheorems
  import opened UdpServer

  /** The buffer sizes of the two ends. */
  datatype Config = Config(sendSize: nat, receiveSize: nat)

  /** The send buffer must hold a prefix, or stamping it panics. */
  ghost predicate Usable(c: Config) {
    c.sendSize >= SEQ_LEN
  }

  /** A datagram in flight. `index` is history: which send it came from. */
  datatype Packet = Packet(index: nat, bytes: seq<u8>)

  /**
   `sends` and the last three components are history. They record which sends
   were delivered, in order, and which were dropped or copied, how often.
   */
  datatype State = State(
    buf: seq<u8>,
    number: u64,
    inFlight: seq<Packet>,
    stats: Stats,
    sends: nat,
    delivered: seq<nat>,
    dropped: multiset<nat>,
    copied: multiset<nat>)

  datatype Action = Send | Drop(i: nat) | Copy(i: nat) | Deliver(i: nat)

  ghost predicate Init(c: Config, s: State) {
    s == State(Filler(c.sendSize), 0, [], ReceiveAll([]), 0, [], multiset{}, multiset{})
  }

  predicate Enabled(s: State, a: Action) {
    a.Send? || a.i < |s.inFlight|
  }

  function Without<T>(packets: seq<T>, i: nat): seq<T>
    requires i < |packets|
  {
    packets[..i] + packets[i + 1..]
  }

  function Apply(c: Config, s: State, a: Action): State
    requires |s.buf| >= SEQ_LEN && Enabled(s, a)
  {
    match a
    case Send =>
      var stamped := Stamp(s.buf, s.number);
      s.(buf := stamped, number := Wrap(s.number + 1), sends := s.sends + 1,
         inFlight := s.inFlight + [Packet(s.sends, stamped)])
    case Drop(i) =>
      s.(inFlight := Without(s.inFlight, i), dropped := s.dropped + multiset{s.inFlight[i].index})
    case Copy(i) =>
      s.(inFlight := s.inFlight + [s.inFlight[i]], copied := s.copied + multiset{s.inFlight[i].index})
    case Deliver(i) =>
      s.(inFlight := Without(s.inFlight, i), delivered := s.delivered + [s.inFlight[i].index],
         stats := Receive(s.stats, Kept(s.inFlight[i].bytes, c.receiveSize)))
  }

  ghost predicate Step(c: Config, s: State, s': State) {
    exists a: Action :: |s.buf| >= SEQ_LEN && Enabled(s, a) && s' == Apply(c, s, a)
  }

  ghost predicate Behaviour(c: Config, run: seq<State>) {
    && run != [] && Init(c, run[0])
    && forall i | 0 <= i < |run| - 1 :: Step(c, run[i], run[i + 1])
  }

  // ---------- What every step keeps ----------

  function Indices(packets: seq<Packet>): seq<nat> {
    seq(|packets|, i requires 0 <= i < |packets| => packets[i].index)
  }

  function Wrapped(indices: seq<nat>): seq<u64> {
    seq(|indices|, i requires 0 <= i < |indices| => Wrap(indices[i]))
  }

  /** Every copy of every send is delivered, dropped or in flight: nothing is invented and nothing vanishes. */
  ghost predicate Conserved(s: State) {
    forall x: nat ::
      multiset(s.delivered)[x] + multiset(Indices(s.inFlight))[x] + s.dropped[x]
      == (if x < s.sends then 1 else 0) + s.copied[x]
  }

  ghost predicate SenderReady(c: Config, s: State)
    requires Usable(c)
  {
    |s.buf| == c.sendSize && s.buf[SEQ_LEN..] == Filler(c.sendSize)[SEQ_LEN..] && s.number == Wrap(s.sends)
  }

  /** A packet is what its send put on the wire, and only such packets were copied. */
  ghost predicate PacketsGenuine(c: Config, s: State)
    requires Usable(c)
  {
    && (forall p | p in s.inFlight :: p.index < s.sends && p.bytes == Frame(c.sendSize, Wrap(p.index)))
    && (forall x | x in s.copied :: x < s.sends)
  }

  /** The server counts every delivery, and tracks it when its buffer holds a prefix. */
  ghost predicate ServerInStep(c: Config, s: State) {
    && s.stats.rx == |s.delivered|
    && s.stats.tracker == if c.receiveSize >= SEQ_LEN then Run(Wrapped(s.delivered)) else FRESH
  }

  ghost predicate Invariant(c: Config, s: State)
    requires Usable(c)
  {
    && SenderReady(c, s)
    && PacketsGenuine(c, s)
    && Conserved(s)
    && ServerInStep(c, s)
  }

  lemma InitHolds(c: Config, s: State)
    requires Usable(c) && Init(c, s)
    ensures Invariant(c, s)
  {
    assert Wrapped([]) == [] && Run([]) == FRESH;
  }

  lemma WithoutMultiset(packets: seq<Packet>, i: nat)
    requires i < |packets|
    ensures multiset(Indices(packets)) == multiset(Indices(Without(packets, i))) + multiset{packets[i].index}
  {
    assert Indices(packets) == Indices(packets[..i]) + [packets[i].index] + Indices(packets[i + 1..]);
    assert Indices(Without(packets, i)) == Indices(packets[..i]) + Indices(packets[i + 1..]);
  }

  lemma SnocMultiset(packets: seq<Packet>, p: Packet)
    ensures multiset(Indices(packets + [p])) == multiset(Indices(packets)) + multiset{p.index}
  {
    assert Indices(packets + [p]) == Indices(packets) + [p.index];
  }

  lemma SendConserves(c: Config, s: State)
    requires |s.buf| >= SEQ_LEN && Conserved(s)
    ensures Conserved(Apply(c, s, Send))
  {
    SnocMultiset(s.inFlight, Packet(s.sends, Stamp(s.buf, s.number)));
  }

  lemma DropConserves(c: Config, s: State, i: nat)
    requires |s.buf| >= SEQ_LEN && i < |s.inFlight| && Conserved(s)
    ensures Conserved(Apply(c, s, Drop(i)))
  {
    WithoutMultiset(s.inFlight, i);
  }

  lemma CopyConserves(c: Config, s: State, i: nat)
    requires |s.buf| >= SEQ_LEN && i < |s.inFlight| && Conserved(s)
    ensures Conserved(Apply(c, s, Copy(i)))
  {
    SnocMultiset(s.inFlight, s.inFlight[i]);
  }

  lemma DeliverConserves(c: Config, s: State, i: nat)
    requires |s.buf| >= SEQ_LEN && i < |s.inFlight| && Conserved(s)
    ensures Conserved(Apply(c, s, Deliver(i)))
  {
    WithoutMultiset(s.inFlight, i);
    var index := s.inFlight[i].index;
    assert multiset(s.delivered + [index]) == multiset(s.delivered) + multiset{index};
  }

  lemma SendStamps(c: Config, s: State)
    requires Usable(c) && SenderReady(c, s)
    ensures Stamp(s.buf, s.number) == Frame(c.sendSize, Wrap(s.sends))
    ensures SenderReady(c, Apply(c, s, Send))
  {
    WrapAdd(s.sends, 1);
    RestampedFrame(c.sendSize, s.buf, s.number);
  }

  lemma SendKeeps(c: Config, s: State)
    requires Usable(c) && Invariant(c, s)
    ensures Invariant(c, Apply(c, s, Send))
  {
    SendConserves(c, s);
    SendStamps(c, s);
    GenuineByAction(c, s, Send);
  }

  lemma GenuineByAction(c: Config, s: State, a: Action)
    requires Usable(c) && SenderReady(c, s) && PacketsGenuine(c, s) && Enabled(s, a)
    ensures PacketsGenuine(c, Apply(c, s, a))
  {
    if a.Send? {
      SendStamps(c, s);
    } else if a.Drop? || a.Deliver? {
      assert forall p | p in Without(s.inFlight, a.i) :: p in s.inFlight;
    }
  }

  lemma DropKeeps(c: Config, s: State, i: nat)
    requires Usable(c) && Invariant(c, s) && i < |s.inFlight|
    ensures Invariant(c, Apply(c, s, Drop(i)))
  {
    DropConserves(c, s, i);
    GenuineByAction(c, s, Drop(i));
  }

  lemma CopyKeeps(c: Config, s: State, i: nat)
    requires Usable(c) && Invariant(c, s) && i < |s.inFlight|
    ensures Invariant(c, Apply(c, s, Copy(i)))
  {
    CopyConserves(c, s, i);
    GenuineByAction(c, s, Copy(i));
  }

  lemma DeliveredDecodes(c: Config, s: State, i: nat)
    requires Usable(c) && Invariant(c, s) && i < |s.inFlight|
    ensures var d := Kept(s.inFlight[i].bytes, c.receiveSize);
      DecodeU64(d) == if c.receiveSize >= SEQ_LEN then Some(Wrap(s.inFlight[i].index)) else None
  {
    var number := Wrap(s.inFlight[i].index);
    assert s.inFlight[i].bytes == Frame(c.sendSize, number);
    FrameDecodes(c.sendSize, number, c.sendSize);
    if c.receiveSize >= SEQ_LEN {
      FrameDecodes(c.sendSize, number, Min(c.sendSize, c.receiveSize));
    }
  }

  lemma DeliverKeeps(c: Config, s: State, i: nat)
    requires Usable(c) && Invariant(c, s) && i < |s.inFlight|
    ensures Invariant(c, Apply(c, s, Deliver(i)))
  {
    DeliverConserves(c, s, i);
    GenuineByAction(c, s, Deliver(i));
    ServerStep(c, s, i);
  }

  lemma ServerStep(c: Config, s: State, i: nat)
    requires Usable(c) && Invariant(c, s) && i < |s.inFlight|
    ensures ServerInStep(c, Apply(c, s, Deliver(i)))
  {
    var number := Wrap(s.inFlight[i].index);
    DeliveredDecodes(c, s, i);
    assert Wrapped(s.delivered + [s.inFlight[i].index]) == Wrapped(s.delivered) + [number];
    RunSnoc(Wrapped(s.delivered), number);
  }

  /** The invariant holds in every state of every behaviour, wrap-around included. */
  lemma {:induction false} AlwaysInvariant(c: Config, run: seq<State>, k: nat)
    requires Usable(c) && Behaviour(c, run) && k < |run|
    ensures Invariant(c, run[k])
  {
    if k == 0 {
      InitHolds(c, run[0]);
    } else {
      AlwaysInvariant(c, run, k - 1);
      var s := run[k - 1];
      assert Step(c, run[k - 1], run[k - 1 + 1]);
      var a: Action :| |s.buf| >= SEQ_LEN && Enabled(s, a) && run[k] == Apply(c, s, a);
      match a
      case Send => SendKeeps(c, s);
      case Drop(i) => DropKeeps(c, s, i);
      case Copy(i) => CopyKeeps(c, s, i);
      case Deliver(i) => DeliverKeeps(c, s, i);
    }
  }
}
