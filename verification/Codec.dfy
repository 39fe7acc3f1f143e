/**
 The send buffer and the big-endian sequence-number prefix. The functions give
 the bytes, and the methods below them work on the buffer in place.
 */
module Codec {
  import opened MachineInts
  import opened Options

  /** The repeated filler, "muffin " in ASCII. */
  const MUFFIN: seq<u8> := [0x6d, 0x75, 0x66, 0x66, 0x69, 0x6e, 0x20]

  /** Length of the sequence-number prefix. */
  const SEQ_LEN: nat := 8

  function Power256(n: nat): nat {
    if n == 0 then 1 else 256 * Power256(n - 1)
  }

  /** `width` bytes, most significant first; higher digits are dropped. */
  function ToBigEndian(x: nat, width: nat): (b: seq<u8>)
    ensures |b| == width
  {
    if width == 0 then [] else ToBigEndian(x / 256, width - 1) + [x % 256]
  }

  function FromBigEndian(b: seq<u8>): nat {
    if b == [] then 0 else FromBigEndian(b[..|b| - 1]) * 256 + b[|b| - 1]
  }

  /** The most significant byte comes first. */
  lemma FromBigEndianPositions(b: seq<u8>)
    requires |b| == SEQ_LEN
    ensures FromBigEndian(b)
         == 0x100_0000_0000_0000 * (b[0] as int) + 0x1_0000_0000_0000 * (b[1] as int)
          + 0x100_0000_0000 * (b[2] as int) + 0x1_0000_0000 * (b[3] as int)
          + 0x100_0000 * (b[4] as int) + 0x1_0000 * (b[5] as int)
          + 0x100 * (b[6] as int) + b[7]
  {
    var c7, c6, c5, c4 := b[..7], b[..6], b[..5], b[..4];
    var c3, c2, c1 := b[..3], b[..2], b[..1];
    assert b[..|b| - 1] == c7 && c7[..6] == c6 && c6[..5] == c5 && c5[..4] == c4;
    assert c4[..3] == c3 && c3[..2] == c2 && c2[..1] == c1 && c1[..0] == [];
    assert FromBigEndian(c1) == b[0];
    assert FromBigEndian(c2) == FromBigEndian(c1) * 256 + b[1];
    assert FromBigEndian(c3) == FromBigEndian(c2) * 256 + b[2];
    assert FromBigEndian(c4) == FromBigEndian(c3) * 256 + b[3];
    assert FromBigEndian(c5) == FromBigEndian(c4) * 256 + b[4];
    assert FromBigEndian(c6) == FromBigEndian(c5) * 256 + b[5];
    assert FromBigEndian(c7) == FromBigEndian(c6) * 256 + b[6];
  }

  lemma {:induction false} DecodeEncoded(x: nat, width: nat)
    requires x < Power256(width)
    ensures FromBigEndian(ToBigEndian(x, width)) == x
  {
    if width > 0 {
      DecodeEncoded(x / 256, width - 1);
      var b := ToBigEndian(x, width);
      assert b[..|b| - 1] == ToBigEndian(x / 256, width - 1);
    }
  }

  lemma {:induction false} EncodeDecoded(b: seq<u8>)
    ensures FromBigEndian(b) < Power256(|b|)
    ensures ToBigEndian(FromBigEndian(b), |b|) == b
  {
    if b != [] {
      var high := b[..|b| - 1];
      EncodeDecoded(high);
      assert b == high + [b[|b| - 1]];
    }
  }

  lemma Power256OfSeqLen()
    ensures Power256(SEQ_LEN) == TWO_TO_64
  {
    assert Power256(4) == 0x1_0000_0000;
    assert Power256(6) == 0x1_0000_0000_0000;
  }

  /** `buf` with its prefix rewritten to `number`. */
  function Stamp(buf: seq<u8>, number: u64): seq<u8>
    requires |buf| >= SEQ_LEN
  {
    ToBigEndian(number, SEQ_LEN) + buf[SEQ_LEN..]
  }

  /** The prefix of a datagram, or nothing when the datagram is too short to have one. */
  function Decode(datagram: seq<u8>): Option<nat> {
    if |datagram| < SEQ_LEN then None else Some(FromBigEndian(datagram[..SEQ_LEN]))
  }

  function Filler(size: nat): seq<u8> {
    seq(size, i requires 0 <= i < size => MUFFIN[i % 7])
  }

  /** What the client puts on the wire for sequence number `number`. */
  function Frame(size: nat, number: u64): seq<u8>
    requires size >= SEQ_LEN
  {
    Stamp(Filler(size), number)
  }

  /** Reading undoes writing, and writing back what was read changes nothing. */
  lemma PrefixRoundTrips(buf: seq<u8>, number: u64)
    requires |buf| >= SEQ_LEN
    ensures Decode(Stamp(buf, number)) == Some(number)
    ensures Decode(buf).Some? && Decode(buf).value < TWO_TO_64 && Stamp(buf, Decode(buf).value) == buf
    ensures Stamp(buf, number)[SEQ_LEN..] == buf[SEQ_LEN..]
  {
    Power256OfSeqLen();
    DecodeEncoded(number, SEQ_LEN);
    EncodeDecoded(buf[..SEQ_LEN]);
    assert Stamp(buf, number)[..SEQ_LEN] == ToBigEndian(number, SEQ_LEN);
    assert buf == buf[..SEQ_LEN] + buf[SEQ_LEN..];
  }

  /** Decoding a 64-bit prefix gives a 64-bit number. */
  function DecodeU64(datagram: seq<u8>): (r: Option<u64>)
    ensures r.Some? <==> |datagram| >= SEQ_LEN
    ensures r.Some? ==> Decode(datagram) == Some(r.value)
  {
    if |datagram| < SEQ_LEN then None
    else
      PrefixRoundTrips(datagram, 0);
      Some(Decode(datagram).value)
  }

  /** What the server reads: nothing from fewer than eight bytes, else the first eight, most significant first. */
  lemma DecodedBytes(d: seq<u8>)
    ensures |d| < 8 ==> DecodeU64(d) == None
    ensures |d| >= 8 ==>
      DecodeU64(d).Some?
      && DecodeU64(d).value
         == 0x100_0000_0000_0000 * (d[0] as int) + 0x1_0000_0000_0000 * (d[1] as int)
          + 0x100_0000_0000 * (d[2] as int) + 0x1_0000_0000 * (d[3] as int)
          + 0x100_0000 * (d[4] as int) + 0x1_0000 * (d[5] as int)
          + 0x100 * (d[6] as int) + d[7]
  {
    if |d| >= 8 {
      FromBigEndianPositions(d[..8]);
    }
  }

  /** The filler spells "muffin ", over and over. */
  lemma FillerSpells(size: nat)
    ensures |Filler(size)| == size
    ensures forall i | 0 <= i < size :: Filler(size)[i] == "muffin "[i % 7] as int
  {
    assert "muffin " == ['m', 'u', 'f', 'f', 'i', 'n', ' '];
  }

  /** Cutting a datagram after its prefix, or anywhere later, does not change its number. */
  lemma FrameDecodes(size: nat, number: u64, kept: nat)
    requires SEQ_LEN <= kept <= size
    ensures |Frame(size, number)| == size
    ensures DecodeU64(Frame(size, number)[..kept]) == Some(number)
  {
    PrefixRoundTrips(Filler(size), number);
    assert Frame(size, number)[..kept][..SEQ_LEN] == Frame(size, number)[..SEQ_LEN];
  }

  /** Rewriting the prefix of any earlier frame gives the next frame. */
  lemma RestampedFrame(size: nat, before: seq<u8>, number: u64)
    requires size >= SEQ_LEN && |before| == size && before[SEQ_LEN..] == Filler(size)[SEQ_LEN..]
    ensures Stamp(before, number) == Frame(size, number)
    ensures Frame(size, number)[SEQ_LEN..] == Filler(size)[SEQ_LEN..]
  {
    PrefixRoundTrips(Filler(size), number);
  }

  // ---------- The in-place operations ----------

  method Buffer(size: nat) returns (buf: array<u8>)
    ensures fresh(buf) && buf[..] == Filler(size)
  {
    buf := new u8[size](_ => 0);
    var i := 0;
    while i < buf.Length
      invariant 0 <= i <= buf.Length
      invariant forall j | 0 <= j < i :: buf[j] == Filler(size)[j]
    {
      buf[i] := MUFFIN[i % |MUFFIN|];
      i := i + 1;
    }
  }

  method PutSeq(buf: array<u8>, number: u64)
    requires buf.Length >= SEQ_LEN
    modifies buf
    ensures buf[..] == Stamp(old(buf[..]), number)
  {
    var bytes := ToBigEndian(number, SEQ_LEN);
    forall i | 0 <= i < SEQ_LEN {
      buf[i] := bytes[i];
    }
  }

  method GetSeq(buf: seq<u8>) returns (number: Option<u64>)
    ensures number == DecodeU64(buf)
  {
    if |buf| < SEQ_LEN {
      return None;
    }
    var bytes := new u8[SEQ_LEN](_ => 0);
    forall i | 0 <= i < SEQ_LEN {
      bytes[i] := buf[i];
    }
    assert bytes[..] == buf[..SEQ_LEN];
    PrefixRoundTrips(buf, 0);
    number := Some(FromBigEndian(bytes[..]));
  }
}
