/** Uuids as the fields of section 4.1.2 of RFC 4122, and their 16-byte wire
    layout: every field in network (big-endian) byte order, in field order. */
module Uuids {
  import opened Text

  type u8 = x: nat | x < 0x100
  type u16 = x: nat | x < 0x1_0000
  type u32 = x: nat | x < 0x1_0000_0000
  type u48 = x: nat | x < 0x1_0000_0000_0000

  datatype Uuid = Uuid(
    timeLow: u32,
    timeMid: u16,
    timeHiAndVersion: u16,
    clockSeqHiAndReserved: u8,
    clockSeqLow: u8,
    node: u48)

  /** A 16-byte sequence, the width of a uuid on the wire. */
  type Bytes16 = b: seq<byte> | |b| == 16
    witness [0, 0, 0, 0, 0, 0, 0, 0, 0, 0, 0, 0, 0, 0, 0, 0]

  function Pow256(width: nat): (r: nat)
    ensures r > 0
  {
    if width == 0 then 1 else 256 * Pow256(width - 1)
  }

  /** `n` written in `width` bytes, most significant first. */
  function BigEndian(n: nat, width: nat): (r: seq<byte>)
    requires n < Pow256(width)
    ensures |r| == width
  {
    if width == 0 then []
    else
      assert n / 256 < Pow256(width - 1);
      BigEndian(n / 256, width - 1) + [n % 256]
  }

  /** The number whose big-endian bytes are `bs`. */
  function FromBigEndian(bs: seq<byte>): (n: nat)
    ensures n < Pow256(|bs|)
  {
    if |bs| == 0 then 0 else FromBigEndian(bs[..|bs| - 1]) * 256 + bs[|bs| - 1]
  }

  lemma {:induction false} FromBigEndianOfBigEndian(n: nat, width: nat)
    requires n < Pow256(width)
    ensures FromBigEndian(BigEndian(n, width)) == n
  {
    if width > 0 {
      assert n / 256 < Pow256(width - 1);
      FromBigEndianOfBigEndian(n / 256, width - 1);
      var bs := BigEndian(n, width);
      assert bs[..|bs| - 1] == BigEndian(n / 256, width - 1);
    }
  }

  lemma {:induction false} BigEndianOfFromBigEndian(bs: seq<byte>)
    ensures BigEndian(FromBigEndian(bs), |bs|) == bs
  {
    if |bs| > 0 {
      var init := bs[..|bs| - 1];
      BigEndianOfFromBigEndian(init);
      var n := FromBigEndian(bs);
      assert n / 256 == FromBigEndian(init);
      assert n % 256 == bs[|bs| - 1];
      assert bs == init + [bs[|bs| - 1]];
    }
  }

  /** `Uuid::as_bytes`: the fields laid out as in section 4.1.2 of RFC 4122. */
  function AsBytes(id: Uuid): (r: Bytes16)
    ensures r[..4] == BigEndian(id.timeLow, 4)
    ensures r[4..6] == BigEndian(id.timeMid, 2)
    ensures r[6..8] == BigEndian(id.timeHiAndVersion, 2)
    ensures r[8] == id.clockSeqHiAndReserved && r[9] == id.clockSeqLow
    ensures r[10..] == BigEndian(id.node, 6)
  {
    BigEndian(id.timeLow, 4) + BigEndian(id.timeMid, 2) + BigEndian(id.timeHiAndVersion, 2)
    + [id.clockSeqHiAndReserved, id.clockSeqLow] + BigEndian(id.node, 6)
  }

  /** `Uuid::from_bytes`: reads the fields back from their byte layout. */
  function FromBytes(b: Bytes16): Uuid {
    Uuid(FromBigEndian(b[..4]), FromBigEndian(b[4..6]), FromBigEndian(b[6..8]),
         b[8], b[9], FromBigEndian(b[10..]))
  }

  /** The byte layout loses nothing: a uuid is recovered from its bytes. */
  lemma FromBytesAsBytes(id: Uuid)
    ensures FromBytes(AsBytes(id)) == id
  {
    var b := AsBytes(id);
    FromBigEndianOfBigEndian(id.timeLow, 4);
    FromBigEndianOfBigEndian(id.timeMid, 2);
    FromBigEndianOfBigEndian(id.timeHiAndVersion, 2);
    FromBigEndianOfBigEndian(id.node, 6);
  }

  /** Every 16-byte sequence is the layout of exactly the uuid read from it. */
  lemma AsBytesFromBytes(b: Bytes16)
    ensures AsBytes(FromBytes(b)) == b
  {
    BigEndianOfFromBigEndian(b[..4]);
    BigEndianOfFromBigEndian(b[4..6]);
    BigEndianOfFromBigEndian(b[6..8]);
    BigEndianOfFromBigEndian(b[10..]);
    var r := AsBytes(FromBytes(b));
    assert r[..4] == b[..4] && r[4..6] == b[4..6] && r[6..8] == b[6..8] && r[10..] == b[10..];
    assert r == b[..4] + b[4..6] + b[6..8] + [b[8], b[9]] + b[10..];
    assert b == b[..4] + b[4..6] + b[6..8] + [b[8], b[9]] + b[10..];
  }

  /** Distinct uuids have distinct byte layouts. */
  lemma AsBytesInjective(a: Uuid, b: Uuid)
    ensures AsBytes(a) == AsBytes(b) ==> a == b
  {
    FromBytesAsBytes(a);
    FromBytesAsBytes(b);
  }
}
