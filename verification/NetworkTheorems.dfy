/**
 What the server's counters say about the sender and the network, in every
 state a behaviour can reach before the 64-bit sequence number wraps.
 */
module NetworkTheorems {
  import opened MachineInts
  import opened Options
  import opened Codec
  import opened SequenceTracker
  import opened TraceTheorems
  import opened UdpServer
  import opened Network

  /** The server tracks, something arrived, and the sender has not wrapped. */
  ghost predicate Observed(c: Config, s: State) {
    Usable(c) && c.receiveSize >= SEQ_LEN && s.delivered != [] && s.sends < TWO_TO_64
  }

  lemma CountedMeansSent(c: Config, s: State, x: nat)
    requires Usable(c) && Invariant(c, s)
    ensures x in s.delivered ==> x < s.sends
    ensures x in s.dropped ==> x < s.sends
  {
    assert x in s.delivered ==> multiset(s.delivered)[x] > 0;
    if x !in s.copied {
      assert s.copied[x] == 0;
    }
  }

  lemma TraceIsDelivered(c: Config, s: State)
    requires Observed(c, s) && Invariant(c, s)
    ensures var trace := Wrapped(s.delivered);
      && BelowMax(trace)
      && s.stats.tracker == Run(trace)
      && |trace| == |s.delivered|
      && forall i | 0 <= i < |trace| :: trace[i] == s.delivered[i] < s.sends
  {
    forall i | 0 <= i < |s.delivered|
      ensures s.delivered[i] < s.sends
    {
      CountedMeansSent(c, s, s.delivered[i]);
    }
  }

  lemma TraceMembers(c: Config, s: State, x: nat)
    requires Observed(c, s) && Invariant(c, s)
    ensures x in Wrapped(s.delivered) <==> x in s.delivered
  {
    TraceIsDelivered(c, s);
    var trace := Wrapped(s.delivered);
    if x in s.delivered {
      var i :| 0 <= i < |s.delivered| && s.delivered[i] == x;
      assert trace[i] == x;
    }
    if x in trace {
      var i :| 0 <= i < |trace| && trace[i] == x;
      assert s.delivered[i] == x;
    }
  }

  /**
   The system's ledger: what is in flight was sent, the mark is at most the
   number of sends, and the sends split into those before the first tracked
   number, the in-order deliveries, the losses and those past the mark.
   */
  lemma SendsLedger(c: Config, run: seq<State>, k: nat)
    requires Behaviour(c, run) && k < |run| && Observed(c, run[k])
    ensures var s := run[k];
      && (forall i | 0 <= i < |s.inFlight| ::
            s.inFlight[i].index < s.sends && DecodeU64(s.inFlight[i].bytes) == Some(s.inFlight[i].index))
      && (forall i | 0 <= i < |s.delivered| :: s.delivered[i] < s.sends)
      && s.stats.tracker.next.Some? && s.stats.tracker.next.value <= s.sends
      && s.sends == s.delivered[0] + |Records(Wrapped(s.delivered))| + s.stats.tracker.loss
                    + (s.sends - s.stats.tracker.next.value)
  {
    var s := run[k];
    AlwaysInvariant(c, run, k);
    TraceIsDelivered(c, s);
    var trace := Wrapped(s.delivered);
    TrackerMeaning(trace);
    var i :| 0 <= i < |trace| && trace[i] == Largest(trace);
    forall i | 0 <= i < |s.inFlight|
      ensures DecodeU64(s.inFlight[i].bytes) == Some(s.inFlight[i].index)
    {
      FrameDecodes(c.sendSize, s.inFlight[i].index, c.sendSize);
      assert s.inFlight[i].bytes[..c.sendSize] == s.inFlight[i].bytes;
    }
  }

  /** Of a number the receiver misses, every copy ever made was dropped or is still in flight. */
  lemma MissingExplained(c: Config, run: seq<State>, k: nat)
    requires Behaviour(c, run) && k < |run| && Observed(c, run[k])
    ensures var s, trace := run[k], Wrapped(run[k].delivered);
      && s.stats.tracker.loss == |Missing(trace)| + |LateNumbers(trace)|
      && (forall v | v in Missing(trace) :: 0 <= v < s.sends)
      && (forall v: nat | v in Missing(trace) :: s.dropped[v] + multiset(Indices(s.inFlight))[v] == 1 + s.copied[v])
      && (s.inFlight == [] && s.dropped == multiset{} ==> s.stats.tracker.loss == |LateNumbers(trace)|)
  {
    var s := run[k];
    AlwaysInvariant(c, run, k);
    TraceIsDelivered(c, s);
    var trace := Wrapped(s.delivered);
    LossIsMissingPlusLate(trace);
    var i :| 0 <= i < |trace| && trace[i] == Largest(trace);
    forall v: nat | v in Missing(trace)
      ensures s.dropped[v] + multiset(Indices(s.inFlight))[v] == 1 + s.copied[v]
    {
      TraceMembers(c, s, v);
      assert multiset(s.delivered)[v] == 0;
    }
    if s.inFlight == [] && s.dropped == multiset{} {
      assert Indices(s.inFlight) == [];
      assert forall x: nat :: s.dropped[x] + multiset(Indices(s.inFlight))[x] == 0;
      assert Missing(trace) == {};
    }
  }

  lemma {:induction false} WrappedMultiset(indices: seq<nat>, x: u64)
    requires forall i | 0 <= i < |indices| :: indices[i] < TWO_TO_64
    ensures multiset(Wrapped(indices))[x] == multiset(indices)[x]
  {
    if indices != [] {
      var before, last := indices[..|indices| - 1], indices[|indices| - 1];
      WrappedMultiset(before, x);
      assert indices == before + [last];
      assert Wrapped(indices) == Wrapped(before) + [last];
    }
  }

  lemma {:induction false} FirstNumbersMultiset(n: nat, x: u64)
    requires n <= TWO_TO_64
    ensures multiset(FirstNumbers(n))[x] == if x < n then 1 else 0
  {
    if n > 0 {
      FirstNumbersMultiset(n - 1, x);
      assert FirstNumbers(n) == FirstNumbers(n - 1) + [n - 1];
    }
  }

  /** A network that only reorders, once drained: out-of-order exceeds loss by the first number to arrive. */
  lemma ReorderingOnly(c: Config, run: seq<State>, k: nat)
    requires Behaviour(c, run) && k < |run| && Observed(c, run[k])
    requires run[k].dropped == multiset{} && run[k].copied == multiset{} && run[k].inFlight == []
    ensures var s := run[k];
      && s.stats.tracker.outOfOrder == s.stats.tracker.loss + s.delivered[0]
      && s.stats.rx == s.sends
  {
    var s := run[k];
    AlwaysInvariant(c, run, k);
    TraceIsDelivered(c, s);
    var trace := Wrapped(s.delivered);
    var received: multiset<u64>, expected: multiset<u64> := multiset(trace), multiset(FirstNumbers(s.sends));
    forall x: u64
      ensures received[x] == expected[x]
    {
      WrappedMultiset(s.delivered, x);
      FirstNumbersMultiset(s.sends, x);
      assert Indices(s.inFlight) == [];
    }
    assert received == expected;
    assert |trace| == |received| == |FirstNumbers(s.sends)|;
    PermutationBalance(trace, s.sends);
  }

  // ---------- Every order of arrival is possible ----------

  function Last(run: seq<State>): State
    requires run != []
  {
    run[|run| - 1]
  }

  lemma Extend(c: Config, run: seq<State>, a: Action)
    requires Behaviour(c, run) && |Last(run).buf| >= SEQ_LEN && Enabled(Last(run), a)
    ensures Behaviour(c, run + [Apply(c, Last(run), a)])
  {
    var longer := run + [Apply(c, Last(run), a)];
    assert Step(c, Last(run), Apply(c, Last(run), a));
    forall i | 0 <= i < |longer| - 1
      ensures Step(c, longer[i], longer[i + 1])
    {
      assert i < |run| - 1 ==> Step(c, run[i], run[i + 1]);
    }
  }

  lemma FifoExtend(c: Config, run: seq<State>, a: Action)
    requires FifoBehaviour(c, run) && |Last(run).buf| >= SEQ_LEN && Enabled(Last(run), a)
    requires !a.Copy? && (a.Deliver? ==> a.i == 0)
    ensures FifoBehaviour(c, run + [Apply(c, Last(run), a)])
  {
    var longer := run + [Apply(c, Last(run), a)];
    assert FifoStep(c, Last(run), Apply(c, Last(run), a));
    forall i | 0 <= i < |longer| - 1
      ensures FifoStep(c, longer[i], longer[i + 1])
    {
      assert i < |run| - 1 ==> FifoStep(c, run[i], run[i + 1]);
    }
  }

  /** The first `n` sends are all in flight, and nothing else happened. */
  ghost predicate AllInFlight(s: State, n: nat) {
    && |s.buf| >= SEQ_LEN && s.sends == n && s.delivered == []
    && |s.inFlight| == n && forall i | 0 <= i < n :: s.inFlight[i].index == i
  }

  lemma {:induction false} SendAll(c: Config, n: nat) returns (run: seq<State>)
    requires Usable(c)
    ensures FifoBehaviour(c, run) && AllInFlight(Last(run), n)
  {
    if n == 0 {
      run := [State(Filler(c.sendSize), 0, [], ReceiveAll([]), 0, [], multiset{}, multiset{})];
    } else {
      run := SendAll(c, n - 1);
      FifoExtend(c, run, Send);
      run := run + [Apply(c, Last(run), Send)];
    }
  }

  /** A copy of a packet in flight can be delivered at once, leaving everything in flight as it was. */
  lemma CopyThenDeliver(c: Config, run: seq<State>, i: nat) returns (longer: seq<State>)
    requires Behaviour(c, run) && |Last(run).buf| >= SEQ_LEN && i < |Last(run).inFlight|
    ensures Behaviour(c, longer) && Last(longer).buf == Last(run).buf && Last(longer).sends == Last(run).sends
    ensures Last(longer).inFlight == Last(run).inFlight
    ensures Last(longer).delivered == Last(run).delivered + [Last(run).inFlight[i].index]
  {
    var n := |Last(run).inFlight|;
    Extend(c, run, Copy(i));
    longer := run + [Apply(c, Last(run), Copy(i))];
    Extend(c, longer, Deliver(n));
    longer := longer + [Apply(c, Last(longer), Deliver(n))];
  }

  lemma {:induction false} DeliverInOrder(c: Config, n: nat, order: seq<nat>) returns (run: seq<State>)
    requires Usable(c) && forall i | 0 <= i < |order| :: order[i] < n
    ensures Behaviour(c, run) && |Last(run).buf| >= SEQ_LEN
    ensures Last(run).sends == n && Last(run).delivered == order
    ensures |Last(run).inFlight| == n && forall i | 0 <= i < n :: Last(run).inFlight[i].index == i
    decreases |order|
  {
    if order == [] {
      run := SendAll(c, n);
      FifoIsBehaviour(c, run);
    } else {
      var before, x := order[..|order| - 1], order[|order| - 1];
      run := DeliverInOrder(c, n, before);
      run := CopyThenDeliver(c, run, x);
      assert order == before + [x];
    }
  }

  lemma {:induction false} Drain(c: Config, run: seq<State>) returns (longer: seq<State>)
    requires Behaviour(c, run) && |Last(run).buf| >= SEQ_LEN
    ensures Behaviour(c, longer) && Last(longer).inFlight == []
    ensures Last(longer).sends == Last(run).sends && Last(longer).delivered == Last(run).delivered
    decreases |Last(run).inFlight|
  {
    if Last(run).inFlight == [] {
      longer := run;
    } else {
      Extend(c, run, Drop(0));
      longer := Drain(c, run + [Apply(c, Last(run), Drop(0))]);
    }
  }

  /**
   Whatever list of the sends one picks, with gaps, repetitions and in any order,
   some behaviour delivers exactly that list and ends with nothing in flight, and
   there the counters are those of the list. So no law of the tracker is about
   traces that cannot happen.
   */
  lemma EveryTraceReachable(c: Config, n: nat, order: seq<u64>) returns (run: seq<State>)
    requires Usable(c) && n <= TWO_TO_64 && forall i | 0 <= i < |order| :: order[i] < n
    ensures Behaviour(c, run)
    ensures var s := run[|run| - 1];
      && s.sends == n && s.delivered == order && s.inFlight == []
      && s.stats.rx == |order|
      && (c.receiveSize >= SEQ_LEN ==> s.stats.tracker == Run(order))
  {
    run := DeliverInOrder(c, n, order);
    run := Drain(c, run);
    AlwaysInvariant(c, run, |run| - 1);
    assert Wrapped(order) == order;
  }

  // ---------- A network that keeps the order and only drops ----------

  ghost predicate FifoStep(c: Config, s: State, s': State) {
    exists a: Action ::
      && |s.buf| >= SEQ_LEN && Enabled(s, a) && s' == Apply(c, s, a)
      && !a.Copy? && (a.Deliver? ==> a.i == 0)
  }

  ghost predicate FifoBehaviour(c: Config, run: seq<State>) {
    && run != [] && Init(c, run[0])
    && forall i | 0 <= i < |run| - 1 :: FifoStep(c, run[i], run[i + 1])
  }

  lemma FifoIsBehaviour(c: Config, run: seq<State>)
    requires FifoBehaviour(c, run)
    ensures Behaviour(c, run)
  {
    forall i | 0 <= i < |run| - 1
      ensures Step(c, run[i], run[i + 1])
    {
      assert FifoStep(c, run[i], run[i + 1]);
    }
  }

  /** Delivered, then in flight, in the order sent, each once. */
  ghost predicate InOrder(s: State) {
    var all := s.delivered + Indices(s.inFlight);
    && s.copied == multiset{}
    && Increasing(all)
    && forall i | 0 <= i < |all| :: all[i] < s.sends
  }

  lemma InOrderSend(c: Config, s: State)
    requires InOrder(s) && |s.buf| >= SEQ_LEN
    ensures InOrder(Apply(c, s, Send))
  {
    var s' := Apply(c, s, Send);
    assert s'.delivered + Indices(s'.inFlight) == s.delivered + Indices(s.inFlight) + [s.sends];
  }

  lemma InOrderDrop(c: Config, s: State, i: nat)
    requires InOrder(s) && |s.buf| >= SEQ_LEN && i < |s.inFlight|
    ensures InOrder(Apply(c, s, Drop(i)))
  {
    var s' := Apply(c, s, Drop(i));
    var all, at := s.delivered + Indices(s.inFlight), |s.delivered| + i;
    var all' := s'.delivered + Indices(s'.inFlight);
    assert |all'| == |all| - 1;
    assert forall j | 0 <= j < |all'| :: all'[j] == all[if j < at then j else j + 1];
  }

  lemma InOrderDeliver(c: Config, s: State)
    requires InOrder(s) && |s.buf| >= SEQ_LEN && s.inFlight != []
    ensures InOrder(Apply(c, s, Deliver(0)))
  {
    var s' := Apply(c, s, Deliver(0));
    assert s'.delivered + Indices(s'.inFlight) == s.delivered + Indices(s.inFlight);
  }

  lemma InOrderStep(c: Config, s: State, s': State)
    requires InOrder(s) && FifoStep(c, s, s')
    ensures InOrder(s')
  {
    var a: Action :| && |s.buf| >= SEQ_LEN && Enabled(s, a) && s' == Apply(c, s, a)
                     && !a.Copy? && (a.Deliver? ==> a.i == 0);
    if a.Send? {
      InOrderSend(c, s);
    } else if a.Drop? {
      InOrderDrop(c, s, a.i);
    } else {
      InOrderDeliver(c, s);
    }
  }

  lemma {:induction false} FifoInOrder(c: Config, run: seq<State>, k: nat)
    requires FifoBehaviour(c, run) && k < |run|
    ensures InOrder(run[k])
  {
    if k > 0 {
      FifoInOrder(c, run, k - 1);
      assert FifoStep(c, run[k - 1], run[k - 1 + 1]);
      InOrderStep(c, run[k - 1], run[k]);
    }
  }

  ghost function DroppedBetween(s: State, lo: int, hi: int): set<int>
    requires lo >= 0
  {
    set v: int | lo < v < hi && v in s.dropped
  }

  lemma AbsentMeansDropped(c: Config, s: State, v: int)
    requires Observed(c, s) && Invariant(c, s) && InOrder(s)
    requires s.delivered[0] < v < s.delivered[|s.delivered| - 1]
    ensures v !in Wrapped(s.delivered) <==> v in s.dropped
  {
    var x: nat := v;
    var all := s.delivered + Indices(s.inFlight);
    var last := |s.delivered| - 1;
    TraceIsDelivered(c, s);
    forall j | 0 <= j < |s.inFlight|
      ensures Indices(s.inFlight)[j] > x
    {
      assert all[last] < all[|s.delivered| + j];
    }
    assert multiset(Indices(s.inFlight))[x] == 0;
    assert all[last] < s.sends;
    assert multiset(s.delivered)[x] + s.dropped[x] == 1;
    TraceMembers(c, s, x);
  }

  /** Nothing is out of order, and the loss is exactly the drops between the first and last received. */
  lemma FifoLossIsDrops(c: Config, run: seq<State>, k: nat)
    requires FifoBehaviour(c, run) && k < |run| && Observed(c, run[k])
    ensures var s := run[k];
      && s.stats.tracker.outOfOrder == 0
      && s.stats.tracker.loss == |DroppedBetween(s, s.delivered[0], s.delivered[|s.delivered| - 1])|
  {
    var s := run[k];
    FifoIsBehaviour(c, run);
    AlwaysInvariant(c, run, k);
    FifoInOrder(c, run, k);
    TraceIsDelivered(c, s);
    var trace := Wrapped(s.delivered);
    var all := s.delivered + Indices(s.inFlight);
    assert forall i | 0 <= i < |trace| :: trace[i] == all[i];
    NoneOutOfOrderIffIncreasing(trace);
    IncreasingLoss(trace);
    var lo, hi := s.delivered[0], s.delivered[|s.delivered| - 1];
    forall v: int
      ensures v in AbsentBetween(trace, lo, hi) <==> v in DroppedBetween(s, lo, hi)
    {
      if lo < v < hi {
        AbsentMeansDropped(c, s, v);
      }
    }
    assert AbsentBetween(trace, lo, hi) == DroppedBetween(s, lo, hi);
  }

  /** The last `m` of `n` sends are in flight, and of the others those in `order` were delivered. */
  ghost predicate Halfway(s: State, n: nat, m: nat, order: seq<nat>, j: nat) {
    && |s.buf| >= SEQ_LEN && s.sends == n && m <= n && j <= |order| && s.delivered == order[..j]
    && |s.inFlight| == m && (forall i | 0 <= i < m :: s.inFlight[i].index == n - m + i)
    && (forall i | j <= i < |order| :: n - m <= order[i] < n)
  }

  lemma {:induction false} DeliverOrDrop(c: Config, run: seq<State>, n: nat, m: nat, order: seq<nat>, j: nat)
    returns (longer: seq<State>)
    requires FifoBehaviour(c, run) && Increasing(order) && Halfway(Last(run), n, m, order, j)
    ensures FifoBehaviour(c, longer)
    ensures Last(longer).sends == n && Last(longer).delivered == order && Last(longer).inFlight == []
    decreases m
  {
    if m == 0 {
      assert j == |order|;
      longer := run;
    } else if j < |order| && order[j] == n - m {
      FifoExtend(c, run, Deliver(0));
      longer := run + [Apply(c, Last(run), Deliver(0))];
      assert forall i | j + 1 <= i < |order| :: order[j] < order[i];
      longer := DeliverOrDrop(c, longer, n, m - 1, order, j + 1);
    } else {
      FifoExtend(c, run, Drop(0));
      longer := run + [Apply(c, Last(run), Drop(0))];
      assert forall i | j < i < |order| :: order[j] < order[i];
      longer := DeliverOrDrop(c, longer, n, m - 1, order, j);
    }
  }

  /** An order-keeping network can deliver every increasing list of the sends. */
  lemma IncreasingTraceReachable(c: Config, n: nat, order: seq<u64>) returns (run: seq<State>)
    requires Usable(c) && n <= TWO_TO_64 && Increasing(order) && forall i | 0 <= i < |order| :: order[i] < n
    ensures FifoBehaviour(c, run)
    ensures var s := run[|run| - 1];
      s.sends == n && s.delivered == order && s.inFlight == []
  {
    run := SendAll(c, n);
    run := DeliverOrDrop(c, run, n, n, order, 0);
  }
}
