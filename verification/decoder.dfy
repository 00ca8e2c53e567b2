/** Single-frame decoding: one captured Ethernet II frame in, one packet
    record or a decode error out. Every read is at a fixed offset after a
    length check, so no index ever leaves the frame. */
module FrameDecoder {
  import opened Bytes
  import opened Results
  import opened Text

  /** Ethernet II header: destination MAC, source MAC, type (RFC 894). */
  const EthernetHeaderLen: nat := 14
  const EtherTypeIPv4: u16 := 0x0800
  /** The fixed part of the IPv4 header (section 3.1 of RFC 791). */
  const Ipv4MinHeaderLen: nat := 20
  /** The fixed part of the TCP header (section 3.1 of RFC 9293). */
  const TcpMinHeaderLen: nat := 20
  /** The UDP header (RFC 768). */
  const UdpHeaderLen: nat := 8
  /** IANA protocol numbers. */
  const ProtoIcmp: byte := 1
  const ProtoTcp: byte := 6
  const ProtoUdp: byte := 17
  /** Bytes of payload kept in a record unless configured otherwise. */
  const DefaultPreviewLimit: nat := 64

  /** Where a frame turned out to be too short. */
  datatype Stage = EthernetStage | IpStage | TcpStage | UdpStage

  /** Why a frame produced no record. Truncation means the frame is corrupt;
      the two Unsupported cases mean it is simply not IPv4. */
  datatype DecodeError =
    | Truncated(stage: Stage)
    | UnsupportedEtherType(etherType: u16)
    | UnsupportedIpVersion(version: nat)

  /** The packet record produced for one frame. */
  datatype PacketInfo = PacketInfo(
    srcIp: string,
    dstIp: string,
    srcMac: string,
    dstMac: string,
    etherType: u16,
    srcPort: u16,
    dstPort: u16,
    ipVersion: nat,
    protocol: string,
    payloadSize: nat,
    payloadPreview: seq<byte>)

  /** The transport-layer part of a record. */
  datatype Transport = Transport(
    protocol: string,
    srcPort: u16,
    dstPort: u16,
    payloadSize: nat,
    payloadPreview: seq<byte>)

  function Min(a: nat, b: nat): (m: nat)
    ensures m <= a && m <= b && (m == a || m == b)
  {
    if a <= b then a else b
  }

  // ---------------------------------------------------------------- protocol tag

  /** The protocol name of a record: "TCP", "UDP", "ICMP" or "OTHER(n)". */
  function ProtocolTag(proto: byte): (tag: string)
    ensures |tag| >= 3
    ensures HasPorts(proto) || proto == ProtoIcmp <==> |tag| <= 4
    ensures !HasPorts(proto) && proto != ProtoIcmp ==>
      |tag| >= 8 && tag[..6] == "OTHER(" && tag[|tag| - 1] == ')' && tag[6..|tag| - 1] == NatToString(proto)
  {
    if proto == ProtoTcp then "TCP"
    else if proto == ProtoUdp then "UDP"
    else if proto == ProtoIcmp then "ICMP"
    else "OTHER(" + NatToString(proto) + ")"
  }

  /** Reads the protocol number back from a tag; "OTHER(n)" is only accepted
      for numbers that have no name of their own. */
  function ParseProtocolTag(tag: string): (r: Option<byte>)
  {
    if tag == "TCP" then Some(ProtoTcp)
    else if tag == "UDP" then Some(ProtoUdp)
    else if tag == "ICMP" then Some(ProtoIcmp)
    else if |tag| < 8 || tag[..6] != "OTHER(" || tag[|tag| - 1] != ')' then None
    else match ParseOctet(tag[6..|tag| - 1])
      case Some(n) =>
        if n == ProtoTcp || n == ProtoUdp || n == ProtoIcmp then None else Some(n)
      case None => None
  }

  /** Every tag is one of the four forms and names its protocol number
      unambiguously. */
  lemma ProtocolTagRoundTrip(proto: byte)
    ensures ParseProtocolTag(ProtocolTag(proto)) == Some(proto)
  {
    if proto != ProtoTcp && proto != ProtoUdp && proto != ProtoIcmp {
      var digits := NatToString(proto);
      var tag := ProtocolTag(proto);
      OctetRoundTrip(proto);
      assert tag[..6] == "OTHER(" && tag[6..|tag| - 1] == digits;
    }
  }

  predicate HasPorts(proto: byte) {
    proto == ProtoTcp || proto == ProtoUdp
  }

  // ---------------------------------------------------------------- preview

  /** A bounded copy of the start of a payload of `size` bytes. */
  function CopyPayloadPreview(data: seq<byte>, size: nat, limit: nat): (preview: seq<byte>)
    requires size <= |data|
    ensures |preview| == Min(size, limit)
    ensures preview <= data
  {
    data[..Min(size, limit)]
  }

  // ---------------------------------------------------------------- transport

  /** TCP header length in bytes, from the data-offset nibble of byte 12. */
  function TcpHeaderLen(seg: seq<byte>): nat
    requires |seg| >= TcpMinHeaderLen
  {
    4 * HighNibble(seg[12])
  }

  /** Classifies the segment that follows the IPv4 header and extracts ports
      and payload. The payload is always the tail of the segment after the
      transport header; ICMP and unknown protocols count the whole segment. */
  function DecodeTransport(proto: byte, seg: seq<byte>, limit: nat): (r: Result<Transport, DecodeError>)
    ensures r.Failure? <==>
      (proto == ProtoTcp && |seg| < TcpMinHeaderLen) || (proto == ProtoUdp && |seg| < UdpHeaderLen)
    ensures r.Failure? ==> r.error == Truncated(if proto == ProtoTcp then TcpStage else UdpStage)
    ensures r.Success? ==> r.value.protocol == ProtocolTag(proto)
    ensures r.Success? && HasPorts(proto) ==>
      r.value.srcPort == BE16(seg[0], seg[1]) && r.value.dstPort == BE16(seg[2], seg[3])
    ensures r.Success? && !HasPorts(proto) ==> r.value.srcPort == 0 && r.value.dstPort == 0
    ensures r.Success? ==> r.value.payloadSize <= |seg|
    ensures r.Success? ==> r.value.payloadPreview <= seg[|seg| - r.value.payloadSize..]
    ensures r.Success? && proto == ProtoTcp ==>
      r.value.payloadSize == if |seg| > TcpHeaderLen(seg) then |seg| - TcpHeaderLen(seg) else 0
    ensures r.Success? && proto == ProtoUdp ==> r.value.payloadSize == |seg| - UdpHeaderLen
    ensures r.Success? && !HasPorts(proto) ==> r.value.payloadSize == |seg|
    ensures r.Success? && (HasPorts(proto) || proto == ProtoIcmp) ==> |r.value.payloadPreview| == Min(r.value.payloadSize, limit)
    ensures r.Success? && !HasPorts(proto) && proto != ProtoIcmp ==> r.value.payloadPreview == []
  {
    if proto == ProtoTcp then
      if |seg| < TcpMinHeaderLen then Failure(Truncated(TcpStage))
      else
        var srcPort, dstPort := BE16(seg[0], seg[1]), BE16(seg[2], seg[3]);
        var hlen := TcpHeaderLen(seg);
        if |seg| > hlen then
          var size := |seg| - hlen;
          Success(Transport("TCP", srcPort, dstPort, size, CopyPayloadPreview(seg[hlen..], size, limit)))
        else
          Success(Transport("TCP", srcPort, dstPort, 0, []))
    else if proto == ProtoUdp then
      if |seg| < UdpHeaderLen then Failure(Truncated(UdpStage))
      else
        var srcPort, dstPort := BE16(seg[0], seg[1]), BE16(seg[2], seg[3]);
        if |seg| > UdpHeaderLen then
          var size := |seg| - UdpHeaderLen;
          Success(Transport("UDP", srcPort, dstPort, size, CopyPayloadPreview(seg[UdpHeaderLen..], size, limit)))
        else
          Success(Transport("UDP", srcPort, dstPort, 0, []))
    else if proto == ProtoIcmp then
      Success(Transport("ICMP", 0, 0, |seg|, CopyPayloadPreview(seg, |seg|, limit)))
    else
      Success(Transport(ProtocolTag(proto), 0, 0, |seg|, []))
  }

  // ---------------------------------------------------------------- frame

  /** The EtherType of a frame, bytes 12-13 in network byte order. */
  function EtherTypeOf(frame: seq<byte>): u16
    requires |frame| >= EthernetHeaderLen
  {
    BE16(frame[12], frame[13])
  }

  /** IPv4 header length in bytes, from the IHL nibble of the first IP byte. */
  function IpHeaderLen(frame: seq<byte>): nat
    requires |frame| > EthernetHeaderLen
  {
    4 * LowNibble(frame[EthernetHeaderLen])
  }

  /** Long enough for an Ethernet header, whose type says IPv4. */
  predicate IsIpv4Frame(frame: seq<byte>) {
    |frame| >= EthernetHeaderLen && EtherTypeOf(frame) == EtherTypeIPv4
  }

  /** Bytes after the IPv4 header: the transport segment. */
  function SegmentLen(frame: seq<byte>): nat
    requires |frame| > EthernetHeaderLen && EthernetHeaderLen + IpHeaderLen(frame) <= |frame|
  {
    |frame| - EthernetHeaderLen - IpHeaderLen(frame)
  }

  /** The frames that produce a record, stated on absolute frame offsets:
      long enough for Ethernet and a 20-byte IPv4 header, type 0x0800,
      version 4, a header length that fits, and a transport segment long
      enough for the TCP or UDP header when the protocol is TCP or UDP. */
  predicate Accepted(frame: seq<byte>) {
    && |frame| >= EthernetHeaderLen + Ipv4MinHeaderLen
    && EtherTypeOf(frame) == EtherTypeIPv4
    && HighNibble(frame[14]) == 4
    && EthernetHeaderLen + IpHeaderLen(frame) <= |frame|
    && (frame[23] == ProtoTcp ==> SegmentLen(frame) >= TcpMinHeaderLen)
    && (frame[23] == ProtoUdp ==> SegmentLen(frame) >= UdpHeaderLen)
  }

  /** What holds of every record, whatever frame it came from: IPv4 over
      Ethernet type 0x0800, address strings and protocol tag that are the
      canonical renderings of what they parse to, ports only for TCP and
      UDP, a preview bounded by the limit and by the payload size. */
  predicate RecordInvariant(info: PacketInfo, limit: nat) {
    && info.ipVersion == 4
    && info.etherType == EtherTypeIPv4
    && ParseMac(info.srcMac).Some? && ParseMac(info.dstMac).Some?
    && ParseDottedQuad(info.srcIp).Some? && DottedQuad(ParseDottedQuad(info.srcIp).value) == info.srcIp
    && ParseDottedQuad(info.dstIp).Some? && DottedQuad(ParseDottedQuad(info.dstIp).value) == info.dstIp
    && ParseProtocolTag(info.protocol).Some? && ProtocolTag(ParseProtocolTag(info.protocol).value) == info.protocol
    && (!HasPorts(ParseProtocolTag(info.protocol).value) ==> info.srcPort == 0 && info.dstPort == 0)
    && |info.payloadPreview| <= limit
    && |info.payloadPreview| <= info.payloadSize
  }

  /** Decodes one Ethernet II frame carrying IPv4. Each stage checks that the
      bytes it is about to read are present before reading them. */
  function Decode(frame: seq<byte>, limit: nat): (r: Result<PacketInfo, DecodeError>)
    ensures |frame| < EthernetHeaderLen <==> r == Failure(Truncated(EthernetStage))
    ensures |frame| >= EthernetHeaderLen && EtherTypeOf(frame) != EtherTypeIPv4 <==> r.Failure? && r.error.UnsupportedEtherType?
    ensures r.Failure? && r.error.UnsupportedEtherType? ==> r.error.etherType == EtherTypeOf(frame)
    ensures IsIpv4Frame(frame) && |frame| < EthernetHeaderLen + Ipv4MinHeaderLen ==> r == Failure(Truncated(IpStage))
    ensures IsIpv4Frame(frame) && |frame| >= EthernetHeaderLen + Ipv4MinHeaderLen && HighNibble(frame[14]) != 4 ==>
      r == Failure(UnsupportedIpVersion(HighNibble(frame[14])))
    ensures IsIpv4Frame(frame) && |frame| >= EthernetHeaderLen + Ipv4MinHeaderLen && HighNibble(frame[14]) == 4 ==>
      (EthernetHeaderLen + IpHeaderLen(frame) > |frame| ==> r == Failure(Truncated(IpStage)))
    ensures r.Success? <==> Accepted(frame)
    ensures r.Success? ==> DecodedFields(frame, r.value)
    ensures r.Success? ==> TransportOf(frame, r.value, limit)
  {
    if |frame| < EthernetHeaderLen then Failure(Truncated(EthernetStage))
    else
      var etherType := BE16(frame[12], frame[13]);
      if etherType != EtherTypeIPv4 then Failure(UnsupportedEtherType(etherType))
      else DecodeIpv4(frame, limit)
  }

  /** The fields of a record read from a frame, stated on absolute frame
      offsets: destination MAC bytes 0-5, source MAC bytes 6-11, protocol byte
      23, source address bytes 26-29, destination address bytes 30-33, and a
      payload that is a tail of the transport segment. */
  predicate DecodedFields(frame: seq<byte>, info: PacketInfo)
    requires Accepted(frame)
  {
    && info.dstMac == MacToString(frame[0..6])
    && info.srcMac == MacToString(frame[6..12])
    && info.etherType == EtherTypeIPv4
    && info.ipVersion == 4
    && info.srcIp == DottedQuad(frame[26..30])
    && info.dstIp == DottedQuad(frame[30..34])
    && info.protocol == ProtocolTag(frame[23])
    && info.payloadSize <= SegmentLen(frame)
    && info.payloadPreview <= frame[|frame| - info.payloadSize..]
  }

  /** The transport part of a record is what the segment after the IPv4
      header decodes to. */
  predicate TransportOf(frame: seq<byte>, info: PacketInfo, limit: nat)
    requires Accepted(frame)
  {
    DecodeTransport(frame[23], frame[EthernetHeaderLen + IpHeaderLen(frame)..], limit)
      == Success(Transport(info.protocol, info.srcPort, info.dstPort, info.payloadSize, info.payloadPreview))
  }

  /** The IPv4 stage of decoding, after the Ethernet header has been checked. */
  function DecodeIpv4(frame: seq<byte>, limit: nat): (r: Result<PacketInfo, DecodeError>)
    requires |frame| >= EthernetHeaderLen && EtherTypeOf(frame) == EtherTypeIPv4
    ensures |frame| < EthernetHeaderLen + Ipv4MinHeaderLen ==> r == Failure(Truncated(IpStage))
    ensures |frame| >= EthernetHeaderLen + Ipv4MinHeaderLen && HighNibble(frame[14]) != 4 ==>
      r == Failure(UnsupportedIpVersion(HighNibble(frame[14])))
    ensures |frame| >= EthernetHeaderLen + Ipv4MinHeaderLen && HighNibble(frame[14]) == 4 ==>
      (EthernetHeaderLen + IpHeaderLen(frame) > |frame| ==> r == Failure(Truncated(IpStage)))
    ensures r.Success? <==> Accepted(frame)
    ensures r.Failure? ==> !r.error.UnsupportedEtherType? && r.error != Truncated(EthernetStage)
    ensures r.Success? ==> DecodedFields(frame, r.value)
    ensures r.Success? ==> TransportOf(frame, r.value, limit)
  {
    var ip := frame[EthernetHeaderLen..];
    if |ip| < Ipv4MinHeaderLen then Failure(Truncated(IpStage))
    else if HighNibble(ip[0]) != 4 then Failure(UnsupportedIpVersion(HighNibble(ip[0])))
    else
      var ipHeaderLen := 4 * LowNibble(ip[0]);
      if ipHeaderLen > |ip| then Failure(Truncated(IpStage))
      else
        var seg := ip[ipHeaderLen..];
        assert seg == frame[EthernetHeaderLen + ipHeaderLen..];
        assert ip[9] == frame[23] && ip[12..16] == frame[26..30] && ip[16..20] == frame[30..34];
        match DecodeTransport(ip[9], seg, limit)
        case Failure(e) => Failure(e)
        case Success(t) =>
          assert seg[|seg| - t.payloadSize..] == frame[|frame| - t.payloadSize..];
          Success(PacketInfo(
            srcIp := DottedQuad(ip[12..16]),
            dstIp := DottedQuad(ip[16..20]),
            srcMac := MacToString(frame[6..12]),
            dstMac := MacToString(frame[0..6]),
            etherType := EtherTypeOf(frame),
            srcPort := t.srcPort,
            dstPort := t.dstPort,
            ipVersion := HighNibble(ip[0]),
            protocol := t.protocol,
            payloadSize := t.payloadSize,
            payloadPreview := t.payloadPreview))
  }

  /** The transport part of a record is what the segment after the IPv4
      header decodes to: ports only for TCP and UDP, and a preview bounded
      by the limit and by the payload size. */
  lemma DecodeTransportPart(frame: seq<byte>, limit: nat)
    requires Accepted(frame)
    ensures var info := Decode(frame, limit).value;
      var t := DecodeTransport(frame[23], frame[EthernetHeaderLen + IpHeaderLen(frame)..], limit);
      && t.Success?
      && info.protocol == t.value.protocol
      && info.srcPort == t.value.srcPort && info.dstPort == t.value.dstPort
      && info.payloadSize == t.value.payloadSize && info.payloadPreview == t.value.payloadPreview
      && (!HasPorts(frame[23]) ==> info.srcPort == 0 && info.dstPort == 0)
      && |info.payloadPreview| <= limit
      && |info.payloadPreview| <= info.payloadSize
  {
    assert TransportOf(frame, Decode(frame, limit).value, limit);
  }

  /** The text fields of a record read back: both MAC strings, both address
      strings and the protocol tag. */
  lemma DecodedTextParses(frame: seq<byte>, info: PacketInfo)
    requires Accepted(frame) && DecodedFields(frame, info)
    ensures ParseMac(info.srcMac).Some? && ParseMac(info.dstMac).Some?
    ensures ParseDottedQuad(info.srcIp) == Some(frame[26..30]) && ParseDottedQuad(info.dstIp) == Some(frame[30..34])
    ensures ParseProtocolTag(info.protocol) == Some(frame[23])
  {
    MacRoundTrip(frame[0..6]);
    MacRoundTrip(frame[6..12]);
    DottedQuadRoundTrip(frame[26..30]);
    DottedQuadRoundTrip(frame[30..34]);
    ProtocolTagRoundTrip(frame[23]);
  }

  /** Every record satisfies the record invariant. */
  lemma DecodeRecordInvariant(frame: seq<byte>, limit: nat)
    requires Decode(frame, limit).Success?
    ensures RecordInvariant(Decode(frame, limit).value, limit)
  {
    DecodeTransportPart(frame, limit);
    DecodedTextParses(frame, Decode(frame, limit).value);
  }

  /** The record for a frame with the default 64-byte preview, or None when
      the frame is truncated or not IPv4. */
  function ParsePacket(frame: seq<byte>): (r: Option<PacketInfo>)
    ensures r.Some? <==> Accepted(frame)
    ensures r.Some? ==> DecodedFields(frame, r.value)
    ensures r.Some? ==> RecordInvariant(r.value, DefaultPreviewLimit)
  {
    var d := Decode(frame, DefaultPreviewLimit);
    assert d.Success? ==> RecordInvariant(d.value, DefaultPreviewLimit) by {
      if d.Success? {
        DecodeRecordInvariant(frame, DefaultPreviewLimit);
      }
    }
    d.ToOption()
  }
}
