/** The decoder as the C++ class writes it: one record, a member of the
    decoder object, is updated field by field by every call and copied out on
    success. A field is written only on the paths that write it, so a record
    can carry values left over from an earlier frame, and the EtherType field
    is never written at all. The rest of the model decodes into a fresh record
    per frame instead; the lemmas here say exactly which fields differ. */
module ReusedRecord {
  import opened Bytes
  import opened Results
  import opened Text
  import opened FrameDecoder
  import opened FrameEncoder

  /** The record a newly built decoder holds: every field value-initialised. */
  const InitialInfo: PacketInfo := PacketInfo("", "", "", "", 0, 0, 0, 0, "", 0, [])

  /** The decoder's record after a call, and what the call returned. */
  datatype Parsed = Parsed(state: PacketInfo, result: Option<PacketInfo>)

  /** One call of the decoder as written, starting from record `info`. */
  function ParseReusing(info: PacketInfo, frame: seq<byte>, limit: nat): (p: Parsed)
    ensures p.result.Some? <==> Accepted(frame)
    ensures p.result.Some? ==> p.result.value == p.state
    ensures p.state.etherType == info.etherType
  {
    if |frame| < EthernetHeaderLen then Parsed(info, None)
    else if BE16(frame[12], frame[13]) != EtherTypeIPv4 then Parsed(info, None)
    else
      var withMacs := info.(srcMac := MacToString(frame[6..12]), dstMac := MacToString(frame[0..6]));
      var ip := frame[EthernetHeaderLen..];
      if |ip| < Ipv4MinHeaderLen then Parsed(withMacs, None)
      else if HighNibble(ip[0]) != 4 then Parsed(withMacs, None)
      else
        var withIp := withMacs.(
          ipVersion := HighNibble(ip[0]),
          srcIp := DottedQuad(ip[12..16]),
          dstIp := DottedQuad(ip[16..20]));
        var ipHeaderLen := 4 * LowNibble(ip[0]);
        if ipHeaderLen > |ip| then Parsed(withIp, None)
        else
          var seg := ip[ipHeaderLen..];
          var proto := ip[9];
          if proto == ProtoTcp then
            if |seg| < TcpMinHeaderLen then Parsed(withIp, None)
            else
              var withPorts := withIp.(protocol := "TCP", srcPort := BE16(seg[0], seg[1]), dstPort := BE16(seg[2], seg[3]));
              var hlen := TcpHeaderLen(seg);
              var done :=
                if |seg| > hlen then
                  withPorts.(payloadSize := |seg| - hlen,
                             payloadPreview := CopyPayloadPreview(seg[hlen..], |seg| - hlen, limit))
                else withPorts;
              Parsed(done, Some(done))
          else if proto == ProtoUdp then
            if |seg| < UdpHeaderLen then Parsed(withIp, None)
            else
              var withPorts := withIp.(protocol := "UDP", srcPort := BE16(seg[0], seg[1]), dstPort := BE16(seg[2], seg[3]));
              var done :=
                if |seg| > UdpHeaderLen then
                  withPorts.(payloadSize := |seg| - UdpHeaderLen,
                             payloadPreview := CopyPayloadPreview(seg[UdpHeaderLen..], |seg| - UdpHeaderLen, limit))
                else withPorts;
              Parsed(done, Some(done))
          else if proto == ProtoIcmp then
            var done := withIp.(protocol := "ICMP", payloadSize := |seg|,
                                payloadPreview := CopyPayloadPreview(seg, |seg|, limit));
            Parsed(done, Some(done))
          else
            var done := withIp.(protocol := ProtocolTag(proto), payloadSize := |seg|);
            Parsed(done, Some(done))
  }

  /** On an accepted frame, whether the call as written assigns the payload
      size: TCP and UDP only when application data follows the header. */
  predicate WritesPayloadSize(frame: seq<byte>)
    requires Accepted(frame)
  {
    var seg := frame[EthernetHeaderLen + IpHeaderLen(frame)..];
    if frame[23] == ProtoTcp then |seg| > TcpHeaderLen(seg)
    else if frame[23] == ProtoUdp then |seg| > UdpHeaderLen
    else true
  }

  /** Whether it assigns the preview: as for the size, except never for
      protocols other than TCP, UDP and ICMP. */
  predicate WritesPreview(frame: seq<byte>)
    requires Accepted(frame)
  {
    WritesPayloadSize(frame) && (HasPorts(frame[23]) || frame[23] == ProtoIcmp)
  }

  /** The fields every accepted call as written assigns. */
  lemma ReusingAssignedFields(info: PacketInfo, frame: seq<byte>, limit: nat)
    requires Accepted(frame)
    ensures var r := ParseReusing(info, frame, limit).result.value;
      && r.dstMac == MacToString(frame[0..6]) && r.srcMac == MacToString(frame[6..12])
      && r.srcIp == DottedQuad(frame[26..30]) && r.dstIp == DottedQuad(frame[30..34])
      && r.ipVersion == 4 && r.protocol == ProtocolTag(frame[23])
  {
    var ip := frame[EthernetHeaderLen..];
    assert ip[9] == frame[23] && ip[12..16] == frame[26..30] && ip[16..20] == frame[30..34];
  }

  /** Ports, size and preview of a call as written, against what the
      segment decodes to. */
  lemma ReusingTransportFields(info: PacketInfo, frame: seq<byte>, limit: nat)
    requires Accepted(frame)
    ensures var r := ParseReusing(info, frame, limit).result.value;
      var t := DecodeTransport(frame[23], frame[EthernetHeaderLen + IpHeaderLen(frame)..], limit).value;
      && (HasPorts(frame[23]) ==> r.srcPort == t.srcPort && r.dstPort == t.dstPort)
      && (!HasPorts(frame[23]) ==> r.srcPort == info.srcPort && r.dstPort == info.dstPort)
      && (r.payloadSize == if WritesPayloadSize(frame) then t.payloadSize else info.payloadSize)
      && (r.payloadPreview == if WritesPreview(frame) then t.payloadPreview else info.payloadPreview)
  {
    var ip := frame[EthernetHeaderLen..];
    assert ip[IpHeaderLen(frame)..] == frame[EthernetHeaderLen + IpHeaderLen(frame)..];
    assert ip[9] == frame[23];
  }

  /** Field by field, the record returned as written against the fresh
      record: addresses, version and protocol always agree; the EtherType is
      whatever the old record held; ports, size and preview agree exactly
      when the call writes them and are left over from `info` otherwise. */
  lemma ReusingVersusFresh(info: PacketInfo, frame: seq<byte>, limit: nat)
    requires Accepted(frame)
    ensures var r := ParseReusing(info, frame, limit).result.value;
      var d := Decode(frame, limit).value;
      && r.srcMac == d.srcMac && r.dstMac == d.dstMac
      && r.srcIp == d.srcIp && r.dstIp == d.dstIp
      && r.ipVersion == d.ipVersion && r.protocol == d.protocol
      && r.etherType == info.etherType
      && (HasPorts(frame[23]) ==> r.srcPort == d.srcPort && r.dstPort == d.dstPort)
      && (!HasPorts(frame[23]) ==> r.srcPort == info.srcPort && r.dstPort == info.dstPort)
      && (r.payloadSize == if WritesPayloadSize(frame) then d.payloadSize else info.payloadSize)
      && (r.payloadPreview == if WritesPreview(frame) then d.payloadPreview else info.payloadPreview)
  {
    ReusingAssignedFields(info, frame, limit);
    ReusingTransportFields(info, frame, limit);
    DecodeTransportPart(frame, limit);
  }

  /** The EtherType field of a new decoder's record stays 0 whatever frames
      it is fed, so no record as written reports type 0x0800. */
  lemma ReusingNeverSetsEtherType(frames: seq<seq<byte>>, limit: nat)
    ensures ParseAll(InitialInfo, frames, limit).etherType == 0
  {
    if |frames| > 0 {
      ReusingNeverSetsEtherType(frames[1..], limit);
    }
  }

  /** The decoder's record after feeding it `frames` in order. */
  function ParseAll(info: PacketInfo, frames: seq<seq<byte>>, limit: nat): (last: PacketInfo)
    ensures last.etherType == info.etherType
    decreases |frames|
  {
    if |frames| == 0 then info
    else ParseAll(ParseReusing(info, frames[0], limit).state, frames[1..], limit)
  }

  // ---------------------------------------------------------------- example

  const ZeroMac: seq<byte> := [0, 0, 0, 0, 0, 0]
  const ZeroAddr: seq<byte> := [0, 0, 0, 0]

  /** A TCP segment from port 80 to port 443 carrying one byte of data. */
  const WebFrame: Frame := Frame(ZeroMac, ZeroMac, 5, ZeroAddr, ZeroAddr, TcpSegment(80, 443, 5, [1]))
  /** An empty ICMP message. */
  const PingFrame: Frame := Frame(ZeroMac, ZeroMac, 5, ZeroAddr, ZeroAddr, IcmpMessage([]))

  /** A TCP frame followed by an ICMP frame: the ICMP record as written
      reports the TCP ports and EtherType 0, and so breaks the record
      invariant, which the fresh record for the same frame keeps. */
  lemma StaleRecordAfterTcp()
    ensures var first := ParseReusing(InitialInfo, Encode(WebFrame), DefaultPreviewLimit);
      var second := ParseReusing(first.state, Encode(PingFrame), DefaultPreviewLimit);
      && second.result.Some?
      && second.result.value.srcPort == 80 && second.result.value.dstPort == 443
      && second.result.value.etherType == 0
      && !RecordInvariant(second.result.value, DefaultPreviewLimit)
      && ParsePacket(Encode(PingFrame)).Some?
      && ParsePacket(Encode(PingFrame)).value.srcPort == 0
      && ParsePacket(Encode(PingFrame)).value.etherType == EtherTypeIPv4
  {
    DecodeEncode(WebFrame, DefaultPreviewLimit);
    DecodeEncode(PingFrame, DefaultPreviewLimit);
    var web, ping := Encode(WebFrame), Encode(PingFrame);
    ReusingVersusFresh(InitialInfo, web, DefaultPreviewLimit);
    var first := ParseReusing(InitialInfo, web, DefaultPreviewLimit);
    ReusingVersusFresh(first.state, ping, DefaultPreviewLimit);
  }
}
