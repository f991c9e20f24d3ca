/** The four data pins of the dummy port. */
module Gpio {
  import opened Bytes

  /** The pins that carry a half-byte, least significant first: 7, 17, 22, 24. */
  const DATA_PINS: bv32 := 0x0142_0080

  /** The half-byte on the pins. */
  function HalfByte(c: bv32): byte {
    (if c & 0x0000_0080 != 0 then 1 else 0)
    | (if c & 0x0002_0000 != 0 then 2 else 0)
    | (if c & 0x0040_0000 != 0 then 4 else 0)
    | (if c & 0x0100_0000 != 0 then 8 else 0)
  }

  method ReadHalfByte(c: bv32) returns (r: byte)
    ensures r == HalfByte(c)
  {
    r := 0;
    if c & 0x0000_0080 != 0 { r := r | 1; }
    if c & 0x0002_0000 != 0 { r := r | 2; }
    if c & 0x0040_0000 != 0 { r := r | 4; }
    if c & 0x0100_0000 != 0 { r := r | 8; }
  }

  /** Bit 0 to 3 are the levels of pins 7, 17, 22 and 24, and there are no others. */
  lemma PinsExactly(c: bv32)
    ensures HalfByte(c) & 1 != 0 <==> (c >> 7) & 1 != 0
    ensures HalfByte(c) & 2 != 0 <==> (c >> 17) & 1 != 0
    ensures HalfByte(c) & 4 != 0 <==> (c >> 22) & 1 != 0
    ensures HalfByte(c) & 8 != 0 <==> (c >> 24) & 1 != 0
    ensures HalfByte(c) < 16
  {
  }

  /** A sender puts half-byte `n` on the data pins; the other pins carry `noise`. */
  function Drive(n: byte, noise: bv32): bv32 {
    (noise & !DATA_PINS)
    | (if n & 1 != 0 then 0x0000_0080 else 0)
    | (if n & 2 != 0 then 0x0002_0000 else 0)
    | (if n & 4 != 0 then 0x0040_0000 else 0)
    | (if n & 8 != 0 then 0x0100_0000 else 0)
  }

  /** Only the low half of what was driven, and none of the noise, arrives. */
  lemma DriveThenRead(n: byte, noise: bv32)
    ensures HalfByte(Drive(n, noise)) == n & 0x0f
  {
  }

  /** The byte a high and a low half make. */
  function Join(high: byte, low: byte): byte {
    (high << 4) | low
  }

  /** Half `i` of byte `b`: the high one comes first. */
  function Half(b: byte, i: nat): byte {
    if i % 2 == 0 then b >> 4 else b & 0x0f
  }

  /** The bytes assembled from a sequence of pin states, high half first; a half-byte
      without a partner makes no byte. */
  function Assemble(pins: seq<bv32>): (bs: seq<byte>)
    ensures |bs| == |pins| / 2
  {
    seq(|pins| / 2, i requires 0 <= i < |pins| / 2 =>
      Join(HalfByte(pins[2 * i]), HalfByte(pins[2 * i + 1])))
  }

  /** The pin states a sender goes through to send `bs`, two for each byte. */
  function Send(bs: seq<byte>, noise: seq<bv32>): (pins: seq<bv32>)
    requires |noise| == 2 * |bs|
    ensures |pins| == 2 * |bs|
  {
    seq(2 * |bs|, i requires 0 <= i < 2 * |bs| =>
      Drive(Half(bs[i / 2], i), noise[i]))
  }

  lemma HalvesJoin(b: byte)
    ensures Join(Half(b, 0) & 0x0f, Half(b, 1) & 0x0f) == b
  {
  }

  /** Whatever is sent is assembled again. */
  lemma SendThenAssemble(bs: seq<byte>, noise: seq<bv32>)
    requires |noise| == 2 * |bs|
    ensures Assemble(Send(bs, noise)) == bs
  {
    var pins := Send(bs, noise);
    forall i | 0 <= i < |bs|
      ensures Assemble(pins)[i] == bs[i]
    {
      DriveThenRead(Half(bs[i], 0), noise[2 * i]);
      DriveThenRead(Half(bs[i], 1), noise[2 * i + 1]);
      HalvesJoin(bs[i]);
    }
  }

  /** An odd-length prefix assembles to the bytes that are complete. */
  lemma OddPrefix(pins: seq<bv32>, c: bv32)
    requires |pins| % 2 == 0
    ensures Assemble(pins + [c]) == Assemble(pins)
  {
  }

  lemma EvenPrefix(pins: seq<bv32>, high: bv32, low: bv32)
    requires |pins| % 2 == 0
    ensures Assemble(pins + [high] + [low]) == Assemble(pins) + [Join(HalfByte(high), HalfByte(low))]
  {
  }
}
