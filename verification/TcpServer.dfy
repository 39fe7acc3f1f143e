/**
 One connection of the TCP server. Reads are grouped in blocks that end when the
 running count equals the buffer size, or at end of stream. The grouping must
 not show in the accounting.
 */
module TcpServer {
  import opened MachineInts
  import opened IntervalMeter

  /** The bytes counted in the block still open after `chunks`; a block closes only on an exact hit. */
  function OpenBlock(chunks: seq<Sample>, size: nat): u64 {
    if chunks == [] then 0
    else
      var n := Wrap(OpenBlock(chunks[..|chunks| - 1], size) + chunks[|chunks| - 1].bytes);
      if n == size then 0 else n
  }

  ghost predicate AtBoundary(chunks: seq<Sample>, i: nat, size: nat)
    requires i <= |chunks|
  {
    OpenBlock(chunks[..i], size) == 0
  }

  lemma BlockStep(chunks: seq<Sample>, i: nat, size: nat)
    requires i < |chunks|
    ensures var n := Wrap(OpenBlock(chunks[..i], size) + chunks[i].bytes);
      OpenBlock(chunks[..i + 1], size) == if n == size then 0 else n
    ensures chunks[..i + 1] == chunks[..i] + [chunks[i]]
  {
    assert chunks[..i + 1][..i] == chunks[..i];
  }

  datatype BlockEnd = Full | EndOfStream | Failed

  /** The inner loop: reads from chunk `from` until an exact hit, the end of the stream, or an error. */
  method ReadBlock(account: Account, size: nat, chunks: seq<Sample>, reset: bool, from: nat)
    returns (n: u64, i: nat, end: BlockEnd)
    requires forall j | 0 <= j < |chunks| :: 1 <= chunks[j].bytes <= size
    requires from <= |chunks| && (from < |chunks| ==> AtBoundary(chunks, from, size))
    requires account.Valid() && account.samples == chunks[..from]
    modifies account
    ensures from <= i <= |chunks| && account.Valid() && account.samples == chunks[..i]
    ensures match end
      case Full => n == size > 0 && i > from && AtBoundary(chunks, i, size)
      case EndOfStream => i == |chunks| && !reset && n == if from == |chunks| then 0 else OpenBlock(chunks, size)
      case Failed => i == |chunks| && reset
  {
    n, i := 0, from;
    assert chunks[..|chunks|] == chunks;
    while i < |chunks|
      invariant from <= i <= |chunks| && account.Valid() && account.samples == chunks[..i]
      invariant n == if from == |chunks| then 0 else OpenBlock(chunks[..i], size)
    {
      BlockStep(chunks, i, size);
      n := Wrap(n + chunks[i].bytes);
      var _ := account.Add(chunks[i].bytes, chunks[i].second);
      i := i + 1;
      if n == size {
        return n, i, Full;
      }
    }
    end := if reset then Failed else EndOfStream;
  }

  /** Between blocks: all blocks so far closed, or the stream ended inside one and one more empty read is due. */
  ghost predicate Pending(chunks: seq<Sample>, size: nat, reset: bool, i: nat, zeroReads: nat)
    requires i <= |chunks|
  {
    || (zeroReads == 0 && AtBoundary(chunks, i, size))
    || (zeroReads == 1 && i == |chunks| && !reset && !AtBoundary(chunks, i, size))
  }

  /** How many reads return nothing before the connection is left. */
  function ZeroReads(chunks: seq<Sample>, size: nat, reset: bool): nat {
    if reset then 0 else if OpenBlock(chunks, size) == 0 then 1 else 2
  }

  // ---------- Where the blocks end ----------

  lemma BytesFrom(chunks: seq<Sample>, s: Sample, from: nat)
    requires from <= |chunks|
    ensures Bytes((chunks + [s])[from..]) == Bytes(chunks[from..]) + s.bytes
  {
    assert (chunks + [s])[from..] == chunks[from..] + [s];
    BytesSnoc(chunks[from..], s);
  }

  /** The chunks from `from` add up to the block size, modulo 2^64, at no point before `to`. */
  ghost predicate NoHit(chunks: seq<Sample>, size: nat, from: nat, to: nat) {
    forall i | from < i < to && i <= |chunks| :: Wrap(Bytes(chunks[from..i])) != size
  }

  /** One block, from a cut to the next. */
  ghost predicate IsBlock(chunks: seq<Sample>, size: nat, from: nat, to: nat) {
    from < to <= |chunks| && Wrap(Bytes(chunks[from..to])) == size && NoHit(chunks, size, from, to)
  }

  /** Blocks from the start on, and an open rest after the last one. */
  ghost predicate AreCuts(cuts: seq<nat>, chunks: seq<Sample>, size: nat) {
    && cuts != [] && cuts[0] == 0 && cuts[|cuts| - 1] <= |chunks|
    && (forall k | 0 <= k < |cuts| - 1 :: IsBlock(chunks, size, cuts[k], cuts[k + 1]))
    && NoHit(chunks, size, cuts[|cuts| - 1], |chunks| + 1)
  }

  lemma NoHitSnoc(chunks: seq<Sample>, s: Sample, size: nat, from: nat, to: nat)
    requires NoHit(chunks, size, from, to) && to <= |chunks| + 1
    ensures NoHit(chunks + [s], size, from, to)
  {
    forall i | from < i < to
      ensures Wrap(Bytes((chunks + [s])[from..i])) != size
    {
      assert (chunks + [s])[from..i] == chunks[from..i];
    }
  }

  lemma IsBlockSnoc(chunks: seq<Sample>, s: Sample, size: nat, from: nat, to: nat)
    requires IsBlock(chunks, size, from, to)
    ensures IsBlock(chunks + [s], size, from, to)
  {
    assert (chunks + [s])[from..to] == chunks[from..to];
    NoHitSnoc(chunks, s, size, from, to);
  }

  lemma CutsSnoc(cuts: seq<nat>, chunks: seq<Sample>, size: nat, s: Sample)
    requires AreCuts(cuts, chunks, size)
    ensures var all, last := chunks + [s], cuts[|cuts| - 1];
      AreCuts(if Wrap(Bytes(all[last..])) == size then cuts + [|all|] else cuts, all, size)
  {
    var all, last := chunks + [s], cuts[|cuts| - 1];
    assert all[last..|all|] == all[last..];
    forall k | 0 <= k < |cuts| - 1
      ensures IsBlock(all, size, cuts[k], cuts[k + 1])
    {
      IsBlockSnoc(chunks, s, size, cuts[k], cuts[k + 1]);
    }
    NoHitSnoc(chunks, s, size, last, |all|);
  }

  /** What is counted in the open block is what came after `from`. */
  ghost predicate IsOpen(chunks: seq<Sample>, size: nat, from: nat) {
    from <= |chunks| && OpenBlock(chunks, size) == Wrap(Bytes(chunks[from..]))
  }

  lemma IsOpenSnoc(chunks: seq<Sample>, size: nat, from: nat, s: Sample)
    requires IsOpen(chunks, size, from)
    ensures var all := chunks + [s];
      IsOpen(all, size, if Wrap(Bytes(all[from..])) == size then |all| else from)
  {
    var all := chunks + [s];
    BytesFrom(chunks, s, from);
    WrapAdd(Bytes(chunks[from..]), s.bytes);
    assert all[..|chunks|] == chunks && all[|all|..] == [];
  }

  lemma {:induction false} FindCuts(chunks: seq<Sample>, size: nat) returns (cuts: seq<nat>)
    ensures AreCuts(cuts, chunks, size) && IsOpen(chunks, size, cuts[|cuts| - 1])
  {
    if chunks == [] {
      cuts := [0];
    } else {
      var before, s := chunks[..|chunks| - 1], chunks[|chunks| - 1];
      assert chunks == before + [s];
      cuts := FindCuts(before, size);
      CutsSnoc(cuts, before, size, s);
      IsOpenSnoc(before, size, cuts[|cuts| - 1], s);
      if Wrap(Bytes(chunks[cuts[|cuts| - 1]..])) == size {
        cuts := cuts + [|chunks|];
      }
    }
  }

  /**
   Cut at the first point where the chunks since the last cut add up to the
   block size, as often as there is one. If nothing is left over, the
   connection is left at the first empty read, otherwise at the second.
   */
  lemma ZeroReadsMeaning(chunks: seq<Sample>, size: nat) returns (cuts: seq<nat>)
    ensures cuts != [] && cuts[0] == 0 && forall k | 0 <= k < |cuts| :: cuts[k] <= |chunks|
    ensures forall k | 0 <= k < |cuts| - 1 ::
              cuts[k] < cuts[k + 1] && Wrap(Bytes(chunks[cuts[k]..cuts[k + 1]])) == size
    ensures forall k, i | 0 <= k < |cuts| && cuts[k] < i <= |chunks| && (k + 1 < |cuts| ==> i < cuts[k + 1]) ::
              Wrap(Bytes(chunks[cuts[k]..i])) != size
    ensures ZeroReads(chunks, size, false) == if Wrap(Bytes(chunks[cuts[|cuts| - 1]..])) == 0 then 1 else 2
    ensures ZeroReads(chunks, size, true) == 0
  {
    cuts := FindCuts(chunks, size);
    forall k | 0 <= k < |cuts|
      ensures cuts[k] <= |chunks|
      ensures NoHit(chunks, size, cuts[k], if k + 1 < |cuts| then cuts[k + 1] else |chunks| + 1)
    {
      assert k < |cuts| - 1 ==> IsBlock(chunks, size, cuts[k], cuts[k + 1]);
    }
  }

  /**
   The connection delivers `chunks`, then end of stream forever, or an error when `reset`.
   `zeroReads` counts the reads that returned nothing.
   */
  method Serve(size: nat, chunks: seq<Sample>, reset: bool)
    returns (meter: Meter, panicked: bool, zeroReads: nat)
    requires forall i | 0 <= i < |chunks| :: 1 <= chunks[i].bytes <= size
    ensures meter == Measure(chunks)
    ensures Wrap(Sum(meter.printed) + meter.pending) == Wrap(Bytes(chunks) * 8)
    ensures panicked == reset
    ensures zeroReads == ZeroReads(chunks, size, reset) <= 2
  {
    var account := new Account();
    var i := 0;
    var going := true;
    zeroReads, panicked := 0, false;
    assert chunks[..|chunks|] == chunks;
    assert AtBoundary(chunks, |chunks|, size) <==> OpenBlock(chunks, size) == 0;
    while going
      invariant 0 <= i <= |chunks| && account.Valid() && account.samples == chunks[..i] && fresh(account)
      invariant going ==> !panicked && Pending(chunks, size, reset, i, zeroReads)
      invariant !going ==> i == |chunks| && panicked == reset && zeroReads == ZeroReads(chunks, size, reset)
      decreases going, |chunks| - i, 1 - zeroReads
    {
      var n, j, end := ReadBlock(account, size, chunks, reset, i);
      i := j;
      zeroReads := zeroReads + if end.EndOfStream? then 1 else 0;
      panicked := end.Failed?;
      going := !panicked && n != 0;
    }
    BitsConserved(chunks);
    meter := account.Reading();
  }
}
