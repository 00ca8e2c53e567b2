/** Octets, 16- and 32-bit unsigned values, and the fixed byte orders the
    decoder reads them in. */
module Bytes {

  type byte = b: int | 0 <= b < 256
  type u16 = v: int | 0 <= v < 0x1_0000
  type u32 = v: int | 0 <= v < 0x1_0000_0000

  /** High four bits of an octet (IPv4 version, TCP data offset). */
  function HighNibble(b: byte): (n: nat)
    ensures n < 16
    ensures b == 16 * n + LowNibble(b)
  {
    b / 16
  }

  /** Low four bits of an octet (IPv4 header length). */
  function LowNibble(b: byte): (n: nat)
    ensures n < 16
  {
    b % 16
  }

  /** A 16-bit value stored most significant octet first (network byte order),
      converted to a host value. */
  function BE16(hi: byte, lo: byte): (v: u16)
    ensures v / 256 == hi && v % 256 == lo
  {
    hi * 256 + lo
  }

  /** The two octets of a 16-bit value in network byte order. */
  function U16ToBE(v: u16): (bs: seq<byte>)
    ensures |bs| == 2 && BE16(bs[0], bs[1]) == v
  {
    [v / 256, v % 256]
  }

  /** An unsigned value stored least significant octet first (the host order
      of the capture header). */
  function LittleEndian(bs: seq<byte>): (v: nat)
    decreases |bs|
  {
    if |bs| == 0 then 0 else bs[0] + 256 * LittleEndian(bs[1..])
  }

  /** 256 to the power `n`: one more than the largest value `n` octets hold. */
  function Pow256(n: nat): (p: nat)
    ensures p >= 1
  {
    if n == 0 then 1 else 256 * Pow256(n - 1)
  }

  /** `n` octets hold a value below 256^n, so the 4- and 2-octet fields of
      the capture header are 32- and 16-bit values. */
  lemma {:induction false} LittleEndianBound(bs: seq<byte>)
    ensures LittleEndian(bs) < Pow256(|bs|)
    decreases |bs|
  {
    if |bs| > 0 {
      LittleEndianBound(bs[1..]);
      MulMonotone(256, LittleEndian(bs[1..]) + 1, Pow256(|bs| - 1));
    }
  }

  lemma MulMonotone(d: nat, a: int, b: int)
    requires a <= b
    ensures d * a <= d * b
  {
  }

  /** The four octets of a 32-bit value, least significant first. */
  function U32ToLE(v: u32): (bs: seq<byte>)
    ensures |bs| == 4 && LittleEndian(bs) == v
  {
    var q1 := v / 256;
    var q2 := q1 / 256;
    var q3 := q2 / 256;
    var bs := [v % 256, q1 % 256, q2 % 256, q3];
    assert LittleEndian(bs[3..]) == q3 by {
      assert bs[3..][1..] == [];
    }
    assert LittleEndian(bs[2..]) == q2 by {
      assert bs[2..][1..] == bs[3..];
    }
    assert LittleEndian(bs[1..]) == q1 by {
      assert bs[1..][1..] == bs[2..];
    }
    bs
  }

  /** The two octets of a 16-bit value, least significant first. */
  function U16ToLE(v: u16): (bs: seq<byte>)
    ensures |bs| == 2 && LittleEndian(bs) == v
  {
    var bs := [v % 256, v / 256];
    assert LittleEndian(bs[1..]) == v / 256 by {
      assert bs[1..][1..] == [];
    }
    bs
  }

  /** `n` zero octets, used as padding by the encoders. */
  function Zeros(n: nat): (z: seq<byte>)
    ensures |z| == n && forall i :: 0 <= i < n ==> z[i] == 0
  {
    seq(n, _ => 0)
  }
}
