/** The inverse direction of the decoder: building a well-formed frame from
    its header fields. The round-trip lemma states that decoding such a frame
    returns exactly the fields it was built from, so the decoder reads every
    field from the place the standards put it. Bytes the decoder never reads
    (TTL, checksums, sequence numbers, IPv4 and TCP options) are zero. */
module FrameEncoder {
  import opened Bytes
  import opened Results
  import opened Text
  import opened FrameDecoder

  datatype Segment =
    | TcpSegment(srcPort: u16, dstPort: u16, dataOffset: nat, data: seq<byte>)
    | UdpSegment(srcPort: u16, dstPort: u16, data: seq<byte>)
    | IcmpMessage(message: seq<byte>)
    | OtherSegment(proto: byte, body: seq<byte>)

  datatype Frame = Frame(
    dstMac: seq<byte>,
    srcMac: seq<byte>,
    ihl: nat,
    srcIp: seq<byte>,
    dstIp: seq<byte>,
    segment: Segment)

  /** Header lengths in their legal ranges (IHL and TCP data offset 5..15),
      addresses of the right size, and "other" protocols really unnamed. */
  predicate ValidSegment(s: Segment) {
    match s
    case TcpSegment(_, _, off, _) => 5 <= off <= 15
    case UdpSegment(_, _, _) => true
    case IcmpMessage(_) => true
    case OtherSegment(p, _) => p != ProtoTcp && p != ProtoUdp && p != ProtoIcmp
  }

  predicate Valid(f: Frame) {
    && |f.dstMac| == MacLen && |f.srcMac| == MacLen
    && 5 <= f.ihl <= 15
    && |f.srcIp| == Ipv4AddrLen && |f.dstIp| == Ipv4AddrLen
    && ValidSegment(f.segment)
  }

  function ProtocolOf(s: Segment): byte {
    match s
    case TcpSegment(_, _, _, _) => ProtoTcp
    case UdpSegment(_, _, _) => ProtoUdp
    case IcmpMessage(_) => ProtoIcmp
    case OtherSegment(p, _) => p
  }

  function EncodeSegment(s: Segment): (bs: seq<byte>)
    requires ValidSegment(s)
  {
    match s
    case TcpSegment(sp, dp, off, data) =>
      U16ToBE(sp) + U16ToBE(dp) + Zeros(8) + [16 * off] + Zeros(4 * off - 13) + data
    case UdpSegment(sp, dp, data) => U16ToBE(sp) + U16ToBE(dp) + Zeros(4) + data
    case IcmpMessage(m) => m
    case OtherSegment(_, body) => body
  }

  function EncodeIpHeader(f: Frame): (bs: seq<byte>)
    requires Valid(f)
    ensures |bs| == 4 * f.ihl
  {
    [0x40 + f.ihl] + Zeros(8) + [ProtocolOf(f.segment)] + Zeros(2) + f.srcIp + f.dstIp + Zeros(4 * f.ihl - 20)
  }

  function Encode(f: Frame): (frame: seq<byte>)
    requires Valid(f)
  {
    f.dstMac + f.srcMac + [0x08, 0x00] + EncodeIpHeader(f) + EncodeSegment(f.segment)
  }

  /** Ports, size and preview a segment should decode to: the application
      data for TCP and UDP, the whole message for ICMP, and no preview for
      unnamed protocols. */
  function ExpectedTransport(s: Segment, limit: nat): Transport {
    match s
    case TcpSegment(sp, dp, _, data) => Transport("TCP", sp, dp, |data|, data[..Min(|data|, limit)])
    case UdpSegment(sp, dp, data) => Transport("UDP", sp, dp, |data|, data[..Min(|data|, limit)])
    case IcmpMessage(m) => Transport("ICMP", 0, 0, |m|, m[..Min(|m|, limit)])
    case OtherSegment(p, body) => Transport(ProtocolTag(p), 0, 0, |body|, [])
  }

  function Expected(f: Frame, limit: nat): PacketInfo
    requires Valid(f)
  {
    var t := ExpectedTransport(f.segment, limit);
    PacketInfo(
      srcIp := DottedQuad(f.srcIp),
      dstIp := DottedQuad(f.dstIp),
      srcMac := MacToString(f.srcMac),
      dstMac := MacToString(f.dstMac),
      etherType := EtherTypeIPv4,
      srcPort := t.srcPort,
      dstPort := t.dstPort,
      ipVersion := 4,
      protocol := t.protocol,
      payloadSize := t.payloadSize,
      payloadPreview := t.payloadPreview)
  }

  lemma TransportRoundTrip(s: Segment, limit: nat)
    requires ValidSegment(s)
    ensures DecodeTransport(ProtocolOf(s), EncodeSegment(s), limit) == Success(ExpectedTransport(s, limit))
  {
    var bs := EncodeSegment(s);
    match s
    case TcpSegment(sp, dp, off, data) =>
      var hdr := U16ToBE(sp) + U16ToBE(dp) + Zeros(8) + [16 * off] + Zeros(4 * off - 13);
      assert bs == hdr + data;
      assert bs[0] == U16ToBE(sp)[0] && bs[1] == U16ToBE(sp)[1];
      assert bs[2] == U16ToBE(dp)[0] && bs[3] == U16ToBE(dp)[1];
      assert bs[12] == 16 * off;
      assert TcpHeaderLen(bs) == 4 * off == |hdr|;
      assert bs[|hdr|..] == data;
    case UdpSegment(sp, dp, data) =>
      assert bs == (U16ToBE(sp) + U16ToBE(dp) + Zeros(4)) + data;
      assert bs[0] == U16ToBE(sp)[0] && bs[1] == U16ToBE(sp)[1];
      assert bs[2] == U16ToBE(dp)[0] && bs[3] == U16ToBE(dp)[1];
      assert bs[UdpHeaderLen..] == data;
    case IcmpMessage(m) =>
    case OtherSegment(p, body) =>
  }

  lemma SliceOfFront<T>(x: seq<T>, y: seq<T>, i: nat, j: nat)
    requires i <= j <= |x|
    ensures (x + y)[i..j] == x[i..j]
  {
  }

  /** Decoding a frame built from header fields yields a record holding
      exactly those fields. */
  lemma DecodeEncode(f: Frame, limit: nat)
    requires Valid(f)
    ensures Decode(Encode(f), limit) == Success(Expected(f, limit))
  {
    var frame := Encode(f);
    var iph := EncodeIpHeader(f);
    var seg := EncodeSegment(f.segment);
    assert frame == (f.dstMac + f.srcMac + [0x08, 0x00]) + (iph + seg);
    assert frame[12] == 0x08 && frame[13] == 0x00;
    assert frame[0..6] == f.dstMac && frame[6..12] == f.srcMac;
    var ip := frame[EthernetHeaderLen..];
    assert ip == iph + seg;
    assert iph[0] == 0x40 + f.ihl && iph[9] == ProtocolOf(f.segment);
    assert iph[12..16] == f.srcIp && iph[16..20] == f.dstIp;
    assert ip[0] == 0x40 + f.ihl && ip[9] == ProtocolOf(f.segment);
    SliceOfFront(iph, seg, 12, 16);
    SliceOfFront(iph, seg, 16, 20);
    assert HighNibble(ip[0]) == 4 && LowNibble(ip[0]) == f.ihl;
    assert ip[4 * f.ihl..] == seg;
    TransportRoundTrip(f.segment, limit);
  }
}
