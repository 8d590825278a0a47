/**
 * EEG sample frames: `[0x04, length, index_lo, index_hi, samples...]`, where
 * every complete 8-byte stride of the samples holds one signed little-endian
 * 32-bit value for channel 1 and then one for channel 2.
 */
module Eeg {
  import opened Wrappers
  import opened Ints
  import Protocol
  import Bits

  datatype EEGPacket = EEGPacket(index: nat, ch1: seq<int>, ch2: seq<int>)

  /** The range of a signed 32-bit sample. */
  predicate IsInt32(v: int)
  {
    -0x8000_0000 <= v < 0x8000_0000
  }

  type int32 = v: int | IsInt32(v)

  lemma Pow256Four()
    ensures Pow256(4) == 0x1_0000_0000
    ensures Pow256(4) / 2 == 0x8000_0000
  {
  }

  /** `int.from_bytes(p[at:at+4], "little", signed=True)` */
  function Sample(p: seq<byte>, at: nat): (r: int)
    requires at + 4 <= |p|
    ensures IsInt32(r)
  {
    Pow256Four();
    FromBytesLittleSigned(p[at..at + 4])
  }

  /**
   * One channel of the strides of `p` from offset `from` on: lane 0 is
   * channel 1, lane 4 channel 2. A stride that does not fit is dropped.
   */
  function Channel(p: seq<byte>, from: nat, lane: nat): (r: seq<int>)
    requires from <= |p| && lane <= 4
    ensures |r| == (|p| - from) / 8
    ensures forall k :: 0 <= k < |r| ==> r[k] == Sample(p, from + 8 * k + lane)
    decreases |p| - from
  {
    if from + 8 > |p| then [] else [Sample(p, from + lane)] + Channel(p, from + 8, lane)
  }

  /**
   * The packet `parse_eeg_packet` returns: None for a frame under four
   * bytes, otherwise the little-endian index in bytes 2..4 and the two
   * channels of `data[4:]`. The length byte `data[1]` is not consulted.
   */
  function ParseEeg(data: seq<byte>): (r: Option<EEGPacket>)
    ensures r.None? <==> |data| < 4
    ensures r.Some? ==> |r.value.ch1| == |r.value.ch2| == (|data| - 4) / 8
  {
    if |data| < 4 then None
    else
      var payload := data[4..];
      Some(EEGPacket(FromBytesLittle(data[2..4]), Channel(payload, 0, 0), Channel(payload, 0, 4)))
  }

  /** The loop of `parse_eeg_packet`: `for i in range(0, len(payload), 8)`, appending only complete strides. */
  method ParseEegPacket(data: seq<byte>) returns (pkt: Option<EEGPacket>)
    ensures pkt == ParseEeg(data)
  {
    if |data| < 4 {
      return None;
    }
    var index := FromBytesLittle(data[2..4]);
    var ch1: seq<int> := [];
    var ch2: seq<int> := [];
    var payload := data[4..];
    var i := 0;
    while i < |payload|
      invariant i % 8 == 0 && i <= |payload| + 7
      invariant |ch1| == |ch2| == (if i <= |payload| then i else |payload|) / 8
      invariant forall k :: 0 <= k < |ch1| ==> ch1[k] == Sample(payload, 8 * k)
      invariant forall k :: 0 <= k < |ch2| ==> ch2[k] == Sample(payload, 8 * k + 4)
      decreases |payload| - i
    {
      if i + 8 <= |payload| {
        ch1 := ch1 + [FromBytesLittleSigned(payload[i..i + 4])];
        ch2 := ch2 + [FromBytesLittleSigned(payload[i + 4..i + 8])];
      }
      i := i + 8;
    }
    assert ch1 == Channel(payload, 0, 0);
    assert ch2 == Channel(payload, 0, 4);
    pkt := Some(EEGPacket(index, ch1, ch2));
  }

  /**
   * The decoded packet in terms of the frame's own offsets: index
   * `data[2] + 256 * data[3]`, and stride `k` at offset `4 + 8k`.
   */
  lemma ParseEegLayout(data: seq<byte>, k: nat)
    requires |data| >= 4
    requires k < (|data| - 4) / 8
    ensures ParseEeg(data).Some?
    ensures ParseEeg(data).value.index == data[2] as int + 256 * (data[3] as int)
    ensures ParseEeg(data).value.ch1[k] == FromBytesLittleSigned(data[4 + 8 * k .. 8 + 8 * k])
    ensures ParseEeg(data).value.ch2[k] == FromBytesLittleSigned(data[8 + 8 * k .. 12 + 8 * k])
    ensures IsInt32(ParseEeg(data).value.ch1[k]) && IsInt32(ParseEeg(data).value.ch2[k])
  {
    var payload := data[4..];
    assert payload[8 * k .. 8 * k + 4] == data[4 + 8 * k .. 8 + 8 * k];
    assert payload[8 * k + 4 .. 8 * k + 8] == data[8 + 8 * k .. 12 + 8 * k];
    FromBytesLittleTwo(data[2..4]);
  }

  /** Every frame of four or more bytes carries the little-endian index of bytes 2 and 3. */
  lemma ParseEegIndex(data: seq<byte>)
    requires |data| >= 4
    ensures ParseEeg(data).Some?
    ensures ParseEeg(data).value.index == data[2] as int + 256 * (data[3] as int)
  {
    FromBytesLittleTwo(data[2..4]);
  }

  /** The length byte never changes the decoded packet. */
  lemma LengthByteIgnored(data: seq<byte>, length: byte)
    requires |data| >= 2
    ensures ParseEeg(data[1 := length]) == ParseEeg(data)
  {
    var other := data[1 := length];
    if |data| >= 4 {
      assert other[2..4] == data[2..4];
      assert other[4..] == data[4..];
    }
  }

  /** Channels read over a longer buffer agree on the strides both contain. */
  lemma ChannelExtend(p: seq<byte>, extra: seq<byte>, from: nat, lane: nat)
    requires from <= |p| && lane <= 4
    requires (|p| - from) % 8 == 0 && |extra| < 8
    ensures Channel(p + extra, from, lane) == Channel(p, from, lane)
  {
    var q := p + extra;
    var m := (|p| - from) / 8;
    Bits.DivModUnique(|q| - from, 8, m, |extra|);
    var a, b := Channel(q, from, lane), Channel(p, from, lane);
    forall k | 0 <= k < |a|
      ensures a[k] == b[k]
    {
      var at := from + 8 * k + lane;
      assert q[at .. at + 4] == p[at .. at + 4];
    }
  }

  /** Up to seven bytes after the last complete stride are dropped without error. */
  lemma TrailingBytesDropped(data: seq<byte>, extra: seq<byte>)
    requires |data| >= 4 && (|data| - 4) % 8 == 0 && |extra| < 8
    ensures ParseEeg(data + extra) == ParseEeg(data)
  {
    var longer := data + extra;
    assert longer[2..4] == data[2..4];
    assert longer[4..] == data[4..] + extra;
    ChannelExtend(data[4..], extra, 0, 0);
    ChannelExtend(data[4..], extra, 0, 4);
  }

  /** The four little-endian two's-complement bytes of a sample. */
  function Int32Bytes(v: int32): (r: seq<byte>)
    ensures |r| == 4
  {
    assert IsInt32(v);
    Pow256Four();
    ToBytesLittleSigned(v, 4)
  }

  lemma Int32RoundTrip(v: int32)
    ensures FromBytesLittleSigned(Int32Bytes(v)) == v
  {
    assert IsInt32(v);
    Pow256Four();
    FromToLittleSigned(v, 4);
  }

  /** The sample bytes a device writes for two equally long channels. */
  function SampleBytes(ch1: seq<int32>, ch2: seq<int32>): (r: seq<byte>)
    requires |ch1| == |ch2|
    ensures |r| == 8 * |ch1|
  {
    if |ch1| == 0 then []
    else Int32Bytes(ch1[0]) + Int32Bytes(ch2[0]) + SampleBytes(ch1[1..], ch2[1..])
  }

  /** An EEG frame as a device lays it out. */
  function EegFrame(length: byte, index: nat, ch1: seq<int32>, ch2: seq<int32>, tail: seq<byte>): (r: seq<byte>)
    requires index < 0x1_0000
    requires |ch1| == |ch2|
    ensures |r| == 4 + 8 * |ch1| + |tail|
  {
    ([Protocol.EegPacketType, length] + ToBytesLittle(index, 2)) + (SampleBytes(ch1, ch2) + tail)
  }

  lemma {:induction false} SampleBytesAt(ch1: seq<int32>, ch2: seq<int32>, k: nat)
    requires |ch1| == |ch2|
    requires k < |ch1|
    ensures SampleBytes(ch1, ch2)[8 * k .. 8 * k + 4] == Int32Bytes(ch1[k])
    ensures SampleBytes(ch1, ch2)[8 * k + 4 .. 8 * k + 8] == Int32Bytes(ch2[k])
    decreases k
  {
    var x, y := Int32Bytes(ch1[0]), Int32Bytes(ch2[0]);
    var rest := SampleBytes(ch1[1..], ch2[1..]);
    SampleBytesHead(ch1, ch2);
    if k == 0 {
      HeadSlices(x, y, rest);
    } else {
      var j := 8 * (k - 1);
      SampleBytesAt(ch1[1..], ch2[1..], k - 1);
      assert ch1[1..][k - 1] == ch1[k] && ch2[1..][k - 1] == ch2[k];
      SliceOfAppend(x + y, rest, j);
    }
  }

  /** The first stride of `x + y + rest`, for four-byte `x` and `y`. */
  lemma HeadSlices(x: seq<byte>, y: seq<byte>, rest: seq<byte>)
    requires |x| == 4 && |y| == 4
    ensures ((x + y) + rest)[0..4] == x && ((x + y) + rest)[4..8] == y
  {
  }

  lemma SampleBytesHead(ch1: seq<int32>, ch2: seq<int32>)
    requires |ch1| == |ch2| && |ch1| > 0
    ensures SampleBytes(ch1, ch2) == (Int32Bytes(ch1[0]) + Int32Bytes(ch2[0])) + SampleBytes(ch1[1..], ch2[1..])
  {
  }

  /** A stride of `head + rest` past `head` (eight bytes long) is a stride of `rest`. */
  lemma SliceOfAppend(head: seq<byte>, rest: seq<byte>, j: nat)
    requires |head| == 8 && j + 8 <= |rest|
    ensures (head + rest)[8 + j .. 8 + j + 4] == rest[j .. j + 4]
    ensures (head + rest)[8 + j + 4 .. 8 + j + 8] == rest[j + 4 .. j + 8]
  {
  }

  lemma SliceOfPrefix(a: seq<byte>, b: seq<byte>, i: nat, j: nat)
    requires i <= j <= |a|
    ensures (a + b)[i..j] == a[i..j]
  {
  }

  /** Stride `k` of the sample bytes reads back as the `k`-th sample of each channel. */
  lemma StrideOfSampleBytes(ch1: seq<int32>, ch2: seq<int32>, tail: seq<byte>, k: nat)
    requires |ch1| == |ch2|
    requires k < |ch1|
    ensures 8 * k + 8 <= |SampleBytes(ch1, ch2) + tail|
    ensures Sample(SampleBytes(ch1, ch2) + tail, 8 * k) == ch1[k]
    ensures Sample(SampleBytes(ch1, ch2) + tail, 8 * k + 4) == ch2[k]
  {
    var samples := SampleBytes(ch1, ch2);
    SampleBytesAt(ch1, ch2, k);
    SliceOfPrefix(samples, tail, 8 * k, 8 * k + 4);
    SliceOfPrefix(samples, tail, 8 * k + 4, 8 * k + 8);
    Int32RoundTrip(ch1[k]);
    Int32RoundTrip(ch2[k]);
  }

  lemma PayloadStrides(ch1: seq<int32>, ch2: seq<int32>, tail: seq<byte>)
    requires |ch1| == |ch2| && |tail| < 8
    ensures |SampleBytes(ch1, ch2) + tail| / 8 == |ch1|
  {
    assert |SampleBytes(ch1, ch2) + tail| == 8 * |ch1| + |tail|;
  }

  lemma FirstChannelOfSampleBytes(ch1: seq<int32>, ch2: seq<int32>, tail: seq<byte>)
    requires |ch1| == |ch2| && |tail| < 8
    ensures Channel(SampleBytes(ch1, ch2) + tail, 0, 0) == ch1
  {
    var payload := SampleBytes(ch1, ch2) + tail;
    PayloadStrides(ch1, ch2, tail);
    forall k | 0 <= k < |ch1|
      ensures Sample(payload, 8 * k) == ch1[k]
    {
      StrideOfSampleBytes(ch1, ch2, tail, k);
    }
    FirstLaneIs(payload, ch1);
  }

  lemma SecondChannelOfSampleBytes(ch1: seq<int32>, ch2: seq<int32>, tail: seq<byte>)
    requires |ch1| == |ch2| && |tail| < 8
    ensures Channel(SampleBytes(ch1, ch2) + tail, 0, 4) == ch2
  {
    var payload := SampleBytes(ch1, ch2) + tail;
    PayloadStrides(ch1, ch2, tail);
    forall k | 0 <= k < |ch1|
      ensures Sample(payload, 8 * k + 4) == ch2[k]
    {
      StrideOfSampleBytes(ch1, ch2, tail, k);
    }
    ChannelIs(payload, 4, ch2);
  }

  /** Both channels read back from the sample bytes, whatever short tail follows them. */
  lemma ChannelsOfSampleBytes(ch1: seq<int32>, ch2: seq<int32>, tail: seq<byte>)
    requires |ch1| == |ch2|
    requires |tail| < 8
    ensures Channel(SampleBytes(ch1, ch2) + tail, 0, 0) == ch1
    ensures Channel(SampleBytes(ch1, ch2) + tail, 0, 4) == ch2
  {
    FirstChannelOfSampleBytes(ch1, ch2, tail);
    SecondChannelOfSampleBytes(ch1, ch2, tail);
  }

  /** Channel 1 is determined by its length and its samples. */
  lemma FirstLaneIs(p: seq<byte>, c: seq<int>)
    requires |c| == |p| / 8
    requires forall k :: 0 <= k < |c| ==> Sample(p, 8 * k) == c[k]
    ensures Channel(p, 0, 0) == c
  {
    ChannelIs(p, 0, c);
  }

  /** A channel is determined by its length and its samples. */
  lemma ChannelIs(p: seq<byte>, lane: nat, c: seq<int>)
    requires lane <= 4 && |c| == |p| / 8
    requires forall k :: 0 <= k < |c| ==> Sample(p, 8 * k + lane) == c[k]
    ensures Channel(p, 0, lane) == c
  {
    var r := Channel(p, 0, lane);
    forall k | 0 <= k < |c|
      ensures r[k] == c[k]
    {
      assert r[k] == Sample(p, 8 * k + lane);
    }
  }

  lemma SplitAfterHeader(header: seq<byte>, payload: seq<byte>)
    requires |header| == 4
    ensures (header + payload)[2..4] == header[2..4]
    ensures (header + payload)[4..] == payload
  {
  }

  /** EEG round trip: decoding a well-formed frame gives back its index and both channels. */
  lemma EegFrameRoundTrip(length: byte, index: nat, ch1: seq<int32>, ch2: seq<int32>, tail: seq<byte>)
    requires index < 0x1_0000
    requires |ch1| == |ch2|
    requires |tail| < 8
    ensures ParseEeg(EegFrame(length, index, ch1, ch2, tail)) == Some(EEGPacket(index, ch1, ch2))
  {
    var header := [Protocol.EegPacketType, length] + ToBytesLittle(index, 2);
    var payload := SampleBytes(ch1, ch2) + tail;
    var frame := EegFrame(length, index, ch1, ch2, tail);
    assert frame == header + payload;
    assert frame[2..4] == ToBytesLittle(index, 2) && frame[4..] == payload by {
      SplitAfterHeader(header, payload);
    }
    FromToLittle(index, 2);
    ChannelsOfSampleBytes(ch1, ch2, tail);
  }

  /** A header-only frame carries its index and no samples. */
  lemma HeaderOnlyFrame()
    ensures ParseEeg([0x04, 0x00, 0x05, 0x00]) == Some(EEGPacket(5, [], []))
  {
    var data: seq<byte> := [0x04, 0x00, 0x05, 0x00];
    FromBytesLittleTwo(data[2..4]);
  }

  /** One stride: sample 1 on channel 1 and sample 2 on channel 2. */
  lemma OneStrideFrame()
    ensures ParseEeg([0x04, 0x08, 0x01, 0x00, 0x01, 0x00, 0x00, 0x00, 0x02, 0x00, 0x00, 0x00])
         == Some(EEGPacket(1, [1], [2]))
  {
    var data: seq<byte> := [0x04, 0x08, 0x01, 0x00, 0x01, 0x00, 0x00, 0x00, 0x02, 0x00, 0x00, 0x00];
    var payload := data[4..];
    FromBytesLittleTwo(data[2..4]);
    SmallSample(payload, 0, 1);
    SmallSample(payload, 4, 2);
    ChannelIs(payload, 0, [1]);
    ChannelIs(payload, 4, [2]);
  }

  /** A sample whose three high bytes are zero is its low byte. */
  lemma SmallSample(p: seq<byte>, at: nat, v: byte)
    requires at + 4 <= |p| && v < 0x80
    requires p[at] == v && p[at + 1] == 0 && p[at + 2] == 0 && p[at + 3] == 0
    ensures Sample(p, at) == v
  {
    var w := p[at..at + 4];
    assert FromBytesLittle(w[3..]) == 0 by {
      assert w[3..][1..] == [];
    }
    assert w[2..][1..] == w[3..];
    assert w[1..][1..] == w[2..];
    assert FromBytesLittle(w[1..]) == 0;
    Pow256Four();
  }
}
