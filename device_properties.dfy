/** What `Device::Process` does, stated on the bytes of the inbound frame:
    when it answers, and the reply's exact bytes. */
module DeviceProperties {
  import opened Bytes
  import opened Errors
  import opened EthernetAddresses
  import opened Ip4Addresses
  import EthernetHeaders
  import ArpPackets
  import Ip4Headers
  import Icmp4Headers
  import InternetChecksums
  import CodecDetails
  import opened Devices

  /** A frame was handed to the send callback. */
  predicate Sends(r: Result<Option<seq<byte>>>)
  {
    r.Ok? && r.value.Some?
  }

  const ArpTag: seq<byte> := [0x08, 0x06]
  const Ip4Tag: seq<byte> := [0x08, 0x00]

  predicate HasEtherType(frame: seq<byte>, tag: seq<byte>)
  {
    |frame| >= EthernetHeaders.HeaderSize && frame[12..14] == tag
  }

  lemma EtherTypeTags(frame: seq<byte>)
    requires |frame| >= EthernetHeaders.HeaderSize
    ensures Uint16At(frame, 12) == EthernetHeaders.EtherTypeArp <==> frame[12..14] == ArpTag
    ensures Uint16At(frame, 12) == EthernetHeaders.EtherTypeIp4 <==> frame[12..14] == Ip4Tag
  {
    assert BeUint16(EthernetHeaders.EtherTypeArp) == ArpTag;
    assert BeUint16(EthernetHeaders.EtherTypeIp4) == Ip4Tag;
  }

  // ---------------------------------------------------------------- ARP

  /** An Ethernet/IPv4 ARP request asking for `ip`, read off the frame's bytes. */
  predicate IsArpRequestFor(ip: Ip4Address, frame: seq<byte>)
  {
    && HasEtherType(frame, ArpTag)
    && |frame| >= 42
    && frame[14..20] == ArpPackets.FixedFields
    && frame[20..22] == [0, 1]
    && frame[38..42] == ip
  }

  /** The reply to ARP request `frame`, byte by byte: to the requester's
      hardware address from `mac`, the request's etherType, the fixed ARP
      fields, operation Reply, sender (`mac`, `ip`), target the requester's
      (hardware, protocol) address, and zeros up to the request's length. */
  function ArpReplyBytes(mac: EthernetAddress, ip: Ip4Address, frame: seq<byte>): seq<byte>
    requires |frame| >= 42
  {
    frame[22..28] + mac + frame[12..14]
      + ArpPackets.FixedFields + [0, 2] + mac + ip + frame[22..28] + frame[28..32]
      + Zeros(|frame| - 42)
  }

  /** Which ARP frames are answered, and which make `Process` throw. */
  lemma ArpDecision(choices: CodecDetails.Choices, mac: EthernetAddress, ip: Ip4Address, frame: seq<byte>)
    requires HasEtherType(frame, ArpTag)
    ensures Sends(Respond(choices, mac, ip, frame)) <==> IsArpRequestFor(ip, frame)
    ensures Respond(choices, mac, ip, frame).Err?
        <==> !(|frame| >= 42 && frame[14..20] == ArpPackets.FixedFields)
    ensures Respond(choices, mac, ip, frame).Err? ==> Respond(choices, mac, ip, frame).error == InvalidArpPacketError
  {
    EtherTypeTags(frame);
    var payload := frame[14..];
    assert |frame| >= 42 ==> payload[..6] == frame[14..20] && payload[6..8] == frame[20..22]
                             && payload[24..28] == frame[38..42];
    if |frame| >= 42 && frame[14..20] == ArpPackets.FixedFields {
      var arp := ArpPackets.Parse(payload).value;
      assert BeUint16(arp.operation) == frame[20..22];
      assert BeUint16(ArpPackets.ArpRequest) == [0, 1];
    }
  }

  /** The bytes of the ARP reply. */
  lemma ArpReplyContents(choices: CodecDetails.Choices, mac: EthernetAddress, ip: Ip4Address, frame: seq<byte>)
    requires IsArpRequestFor(ip, frame)
    ensures Respond(choices, mac, ip, frame) == Ok(Some(ArpReplyBytes(mac, ip, frame)))
  {
    var eth, payload, arp := ArpPath(ip, frame);
    ArpRespondsWith(choices, mac, ip, frame, eth, payload, arp);
    ArpFrameBytes(mac, ip, frame, eth, arp);
  }

  /** The two parses on the path to an ARP reply, and what they yield. */
  lemma ArpPath(ip: Ip4Address, frame: seq<byte>)
    returns (eth: EthernetHeaders.EthernetHeader, payload: seq<byte>, arp: ArpPackets.ArpIp4Packet)
    requires IsArpRequestFor(ip, frame)
    ensures EthernetHeaders.Parse(frame) == Ok((eth, payload)) && ArpPackets.Parse(payload) == Ok(arp)
    ensures eth.etherType == EthernetHeaders.EtherTypeArp && BeUint16(eth.etherType) == frame[12..14]
    ensures arp.operation == ArpPackets.ArpRequest && arp.targetProtocolAddress == ip
    ensures arp.senderHardwareAddress == frame[22..28] && arp.senderProtocolAddress == frame[28..32]
  {
    EtherTypeTags(frame);
    eth, payload := EthernetHeaders.Parse(frame).value.0, EthernetHeaders.Parse(frame).value.1;
    SliceOfSuffix(frame, 14, 0, 6);
    SliceOfSuffix(frame, 14, 6, 8);
    SliceOfSuffix(frame, 14, 8, 14);
    SliceOfSuffix(frame, 14, 14, 18);
    SliceOfSuffix(frame, 14, 24, 28);
    arp := ArpPackets.Parse(payload).value;
    assert BeUint16(arp.operation) == frame[20..22];
    assert BeUint16(ArpPackets.ArpRequest) == [0, 1];
  }

  /** Given the parse results of an ARP request for `ip`, `Process` answers
      with the ARP reply built from them. */
  lemma ArpRespondsWith(choices: CodecDetails.Choices, mac: EthernetAddress, ip: Ip4Address, frame: seq<byte>,
                        eth: EthernetHeaders.EthernetHeader, payload: seq<byte>, arp: ArpPackets.ArpIp4Packet)
    requires EthernetHeaders.Parse(frame) == Ok((eth, payload)) && ArpPackets.Parse(payload) == Ok(arp)
    requires eth.etherType == EthernetHeaders.EtherTypeArp
    requires arp.operation == ArpPackets.ArpRequest && arp.targetProtocolAddress == ip
    ensures Respond(choices, mac, ip, frame) == Ok(Some(ArpReplyFrame(mac, ip, |frame|, eth, arp)))
  {
  }

  /** The ARP reply frame, byte by byte. */
  lemma ArpFrameBytes(mac: EthernetAddress, ip: Ip4Address, frame: seq<byte>,
                      eth: EthernetHeaders.EthernetHeader, arp: ArpPackets.ArpIp4Packet)
    requires |frame| >= 42 && BeUint16(eth.etherType) == frame[12..14]
    requires arp.senderHardwareAddress == frame[22..28] && arp.senderProtocolAddress == frame[28..32]
    ensures ArpReplyFrame(mac, ip, |frame|, eth, arp) == ArpReplyBytes(mac, ip, frame)
  {
    var replyEth := eth.(destination := arp.senderHardwareAddress, source := mac);
    var replyArp := ArpPackets.ArpIp4Packet(ArpPackets.ArpReply, mac, ip, arp.senderHardwareAddress, arp.senderProtocolAddress);
    var e := EthernetHeaders.Encode(replyEth);
    var a := ArpPackets.Encode(replyArp);
    AppendOverZeros([], e, |frame|);
    assert [] + Zeros(|frame|) == Zeros(|frame|);
    assert [] + e + Zeros(|frame| - 14) == e + Zeros(|frame| - |e|);
    AppendOverZeros(e, a, |frame|);
    assert ArpReplyFrame(mac, ip, |frame|, eth, arp) == e + a + Zeros(|frame| - 42);
    assert e == frame[22..28] + mac + frame[12..14];
    assert a == ArpPackets.FixedFields + [0, 2] + mac + ip + frame[22..28] + frame[28..32];
  }

  // ---------------------------------------------------------------- ICMP echo

  /** Where the ICMP header of an IPv4 frame starts. */
  function IcmpOffset(frame: seq<byte>): nat
    requires |frame| > EthernetHeaders.HeaderSize
  {
    EthernetHeaders.HeaderSize + Ip4Headers.HeaderLength(frame[14])
  }

  /** Where the IPv4 payload that `ParseIp4Header` returns ends in the frame. */
  function IcmpEnd(choices: CodecDetails.Choices, frame: seq<byte>): nat
    requires |frame| >= EthernetHeaders.HeaderSize + 4
  {
    EthernetHeaders.HeaderSize + Ip4Headers.PayloadEnd(choices, frame[14..])
  }

  /** An ICMP Echo Request to `ip`, read off the frame's bytes. */
  predicate IsEchoRequestFor(choices: CodecDetails.Choices, ip: Ip4Address, frame: seq<byte>)
  {
    && HasEtherType(frame, Ip4Tag)
    && Ip4Headers.Acceptable(frame[14..])
    && frame[23] == Ip4Headers.ProtocolIcmp
    && IcmpOffset(frame) + Icmp4Headers.HeaderSize <= IcmpEnd(choices, frame)
    && frame[IcmpOffset(frame)] == Icmp4Headers.EchoRequest
    && frame[30..34] == ip
  }

  /** The checksum field as `WriteIcmp4Header` leaves it in the reply. */
  function ChecksumFieldAsWritten(choices: CodecDetails.Choices, frame: seq<byte>): (field: seq<byte>)
    requires |frame| > EthernetHeaders.HeaderSize && IcmpOffset(frame) + 4 <= |frame|
  {
    var k := IcmpOffset(frame);
    if choices.icmpChecksumZeroed then [0, 0] else frame[k + 2..k + 4]
  }

  /** The reply to echo request `frame`, byte by byte: Ethernet addresses
      swapped (our `mac` as source), the IPv4 header copied with source
      `ip` and destination the request's source, ICMP type Echo Reply with
      code, identifier, sequence number and payload copied, zeros up to the
      request's length, and at ICMP offset 2 the RFC 1071 checksum of the
      ICMP bytes as they stood before it was stored. */
  function EchoReplyBytes(choices: CodecDetails.Choices, mac: EthernetAddress, ip: Ip4Address, frame: seq<byte>): seq<byte>
    requires IsEchoRequestFor(choices, ip, frame)
  {
    var k := IcmpOffset(frame);
    var end := IcmpEnd(choices, frame);
    var typeAndCode := [Icmp4Headers.EchoReply, frame[k + 1]];
    var icmpRest := frame[k + 4..end] + Zeros(|frame| - end);
    var checksum := InternetChecksums.Checksum(typeAndCode + ChecksumFieldAsWritten(choices, frame) + icmpRest);
    frame[6..12] + mac + frame[12..14]
      + frame[14..26] + ip + frame[26..30] + frame[34..k]
      + typeAndCode + BeUint16(checksum) + icmpRest
  }

  /** Which IPv4 frames are answered, and which make `Process` throw. */
  lemma EchoDecision(choices: CodecDetails.Choices, mac: EthernetAddress, ip: Ip4Address, frame: seq<byte>)
    requires HasEtherType(frame, Ip4Tag)
    ensures Sends(Respond(choices, mac, ip, frame)) <==> IsEchoRequestFor(choices, ip, frame)
    ensures Respond(choices, mac, ip, frame).Err?
        <==> !Ip4Headers.Acceptable(frame[14..])
             || (frame[23] == Ip4Headers.ProtocolIcmp
                 && IcmpOffset(frame) + Icmp4Headers.HeaderSize > IcmpEnd(choices, frame))
    ensures Respond(choices, mac, ip, frame).Err? ==>
              Respond(choices, mac, ip, frame).error
                == if Ip4Headers.Acceptable(frame[14..]) then choices.icmpTooShortError else Errors.InvalidIp4PacketError
  {
    EtherTypeTags(frame);
    var packet := frame[14..];
    if Ip4Headers.Acceptable(packet) {
      var (ip4, ip4Payload) := Ip4Headers.Parse(choices, packet).value;
      assert packet[9] == frame[23] && packet[16..20] == frame[30..34];
      var k := IcmpOffset(frame);
      var end := IcmpEnd(choices, frame);
      SliceOfSuffix(frame, 14, Ip4Headers.HeaderLength(packet[0]), Ip4Headers.PayloadEnd(choices, packet));
      assert ip4Payload == frame[k..end];
      if k + Icmp4Headers.HeaderSize <= end {
        assert ip4Payload[0] == frame[k];
      }
    }
  }

  /** The parse results `Process` works with on an echo request, and the
      frame it answers with in terms of them. */
  lemma EchoParsed(choices: CodecDetails.Choices, mac: EthernetAddress, ip: Ip4Address, frame: seq<byte>)
    returns (eth: EthernetHeaders.EthernetHeader, ip4: Ip4Headers.Ip4Header,
             icmp: Icmp4Headers.Icmp4Header, icmpPayload: seq<byte>)
    requires IsEchoRequestFor(choices, ip, frame)
    ensures eth.source == frame[6..12] && BeUint16(eth.etherType) == frame[12..14]
    ensures Ip4Headers.WellFormed(ip4) && IcmpOffset(frame) == 14 + Ip4Headers.HeaderLength(ip4.versionAndIhl)
    ensures Ip4Headers.Encode(ip4) == frame[14..IcmpOffset(frame)] && ip4.sourceAddress == frame[26..30]
    ensures Icmp4Headers.Encode(icmp) == frame[IcmpOffset(frame)..IcmpOffset(frame) + 8]
    ensures icmpPayload == frame[IcmpOffset(frame) + 8..IcmpEnd(choices, frame)]
    ensures Respond(choices, mac, ip, frame) == Ok(Some(EchoReplyFrame(choices, mac, ip, |frame|, eth, ip4, icmp, icmpPayload)))
  {
    var ethPayload, ip4Payload;
    eth, ethPayload, ip4, ip4Payload, icmp, icmpPayload := EchoPath(choices, ip, frame);
    EchoRespondsWith(choices, mac, ip, frame, eth, ethPayload, ip4, ip4Payload, icmp, icmpPayload);
  }

  /** The three parses on the path to an echo reply, and what each yields. */
  lemma EchoPath(choices: CodecDetails.Choices, ip: Ip4Address, frame: seq<byte>)
    returns (eth: EthernetHeaders.EthernetHeader, ethPayload: seq<byte>, ip4: Ip4Headers.Ip4Header, ip4Payload: seq<byte>,
             icmp: Icmp4Headers.Icmp4Header, icmpPayload: seq<byte>)
    requires IsEchoRequestFor(choices, ip, frame)
    ensures EthernetHeaders.Parse(frame) == Ok((eth, ethPayload))
    ensures Ip4Headers.Parse(choices, ethPayload) == Ok((ip4, ip4Payload))
    ensures Icmp4Headers.Parse(choices, ip4Payload) == Ok((icmp, icmpPayload))
    ensures eth.etherType == EthernetHeaders.EtherTypeIp4 && ip4.protocol == Ip4Headers.ProtocolIcmp
    ensures icmp.icmpType == Icmp4Headers.EchoRequest && ip4.destinationAddress == ip
    ensures eth.source == frame[6..12] && BeUint16(eth.etherType) == frame[12..14]
    ensures Ip4Headers.WellFormed(ip4) && IcmpOffset(frame) == 14 + Ip4Headers.HeaderLength(ip4.versionAndIhl)
    ensures Ip4Headers.Encode(ip4) == frame[14..IcmpOffset(frame)] && ip4.sourceAddress == frame[26..30]
    ensures Icmp4Headers.Encode(icmp) == frame[IcmpOffset(frame)..IcmpOffset(frame) + 8]
    ensures icmpPayload == frame[IcmpOffset(frame) + 8..IcmpEnd(choices, frame)]
  {
    EtherTypeTags(frame);
    var k := IcmpOffset(frame);
    var end := IcmpEnd(choices, frame);
    eth, ethPayload := EthernetHeaders.Parse(frame).value.0, EthernetHeaders.Parse(frame).value.1;
    assert ethPayload == frame[14..] && ethPayload[0] == frame[14];
    ip4, ip4Payload := Ip4Headers.Parse(choices, ethPayload).value.0, Ip4Headers.Parse(choices, ethPayload).value.1;
    var hl := Ip4Headers.HeaderLength(frame[14]);
    var payloadEnd := Ip4Headers.PayloadEnd(choices, ethPayload);
    assert k == 14 + hl && end == 14 + payloadEnd;
    assert ip4Payload == ethPayload[hl..payloadEnd];
    SliceOfSuffix(frame, 14, hl, payloadEnd);
    assert ip4Payload == frame[k..end];
    icmp, icmpPayload := Icmp4Headers.Parse(choices, ip4Payload).value.0, Icmp4Headers.Parse(choices, ip4Payload).value.1;
    SliceOfSlice(frame, k, end, 8, end - k);
    SliceOfSlice(frame, k, end, 0, 8);
    assert icmpPayload == frame[k + 8..end];
    assert ip4Payload[0] == frame[k];
    SliceOfSuffix(frame, 14, 0, hl);
    SliceOfSuffix(frame, 14, 12, 16);
    SliceOfSuffix(frame, 14, 16, 20);
    assert ethPayload[9] == frame[23];
  }

  /** Given the parse results of an echo request to `ip`, `Process` answers
      with the echo reply built from them. */
  lemma EchoRespondsWith(choices: CodecDetails.Choices, mac: EthernetAddress, ip: Ip4Address, frame: seq<byte>,
                         eth: EthernetHeaders.EthernetHeader, ethPayload: seq<byte>, ip4: Ip4Headers.Ip4Header, ip4Payload: seq<byte>,
                         icmp: Icmp4Headers.Icmp4Header, icmpPayload: seq<byte>)
    requires EthernetHeaders.Parse(frame) == Ok((eth, ethPayload))
    requires Ip4Headers.Parse(choices, ethPayload) == Ok((ip4, ip4Payload))
    requires Icmp4Headers.Parse(choices, ip4Payload) == Ok((icmp, icmpPayload))
    requires eth.etherType == EthernetHeaders.EtherTypeIp4 && ip4.protocol == Ip4Headers.ProtocolIcmp
    requires icmp.icmpType == Icmp4Headers.EchoRequest && ip4.destinationAddress == ip
    requires Ip4Headers.WellFormed(ip4)
    requires EthernetHeaders.HeaderSize + Ip4Headers.HeaderLength(ip4.versionAndIhl) + Icmp4Headers.HeaderSize <= |frame|
    ensures Respond(choices, mac, ip, frame) == Ok(Some(EchoReplyFrame(choices, mac, ip, |frame|, eth, ip4, icmp, icmpPayload)))
  {
  }

  /** The three reply headers, byte by byte. */
  lemma EchoReplyHeaders(choices: CodecDetails.Choices, mac: EthernetAddress, ip: Ip4Address, frame: seq<byte>,
                                            eth: EthernetHeaders.EthernetHeader, ip4: Ip4Headers.Ip4Header, icmp: Icmp4Headers.Icmp4Header)
    requires IsEchoRequestFor(choices, ip, frame)
    requires eth.source == frame[6..12] && BeUint16(eth.etherType) == frame[12..14]
    requires Ip4Headers.WellFormed(ip4) && IcmpOffset(frame) == 14 + Ip4Headers.HeaderLength(ip4.versionAndIhl)
    requires Ip4Headers.Encode(ip4) == frame[14..IcmpOffset(frame)] && ip4.sourceAddress == frame[26..30]
    requires Icmp4Headers.Encode(icmp) == frame[IcmpOffset(frame)..IcmpOffset(frame) + 8]
    ensures EthernetHeaders.Encode(eth.(destination := eth.source, source := mac)) == frame[6..12] + mac + frame[12..14]
    ensures Ip4Headers.Encode(ip4.(destinationAddress := ip4.sourceAddress, sourceAddress := ip))
         == frame[14..26] + ip + frame[26..30] + frame[34..IcmpOffset(frame)]
    ensures var k := IcmpOffset(frame);
      Icmp4Headers.Encode(Icmp4Headers.AsWritten(choices, icmp.(icmpType := Icmp4Headers.EchoReply)))
         == [Icmp4Headers.EchoReply, frame[k + 1]] + ChecksumFieldAsWritten(choices, frame) + frame[k + 4..k + 8]
  {
    var k := IcmpOffset(frame);
    assert ip4.(destinationAddress := ip4.sourceAddress, sourceAddress := ip)
        == ip4.(sourceAddress := ip, destinationAddress := ip4.sourceAddress);
    Ip4Headers.EncodeWithAddresses(ip4, ip, ip4.sourceAddress);
    assert Ip4Headers.Encode(ip4)[..12] == frame[14..26];
    assert Ip4Headers.Encode(ip4)[20..] == frame[34..k];
    assert Icmp4Headers.Encode(icmp)[2..4] == BeUint16(icmp.checksum);
    SliceOfSlice(frame, k, k + 8, 2, 4);
    SliceOfSlice(frame, k, k + 8, 4, 8);
    assert BeUint16(icmp.checksum) == frame[k + 2..k + 4];
    assert icmp.code == frame[k + 1] && icmp.rest == frame[k + 4..k + 8];
  }

  lemma Regroup(e: seq<byte>, i: seq<byte>, t: seq<byte>, f: seq<byte>, r: seq<byte>, p: seq<byte>, z: seq<byte>)
    ensures e + i + (t + f + r) + p + z == e + i + t + f + ((r + p) + z)
  {
  }

  /** Storing the checksum into an echo reply laid out back to back. */
  lemma EchoAssembly(e: seq<byte>, i: seq<byte>, typeAndCode: seq<byte>, field: seq<byte>, icmpRest: seq<byte>, w: seq<byte>)
    requires |typeAndCode| == 2 && |field| == 2 && |w| == 2
    ensures (e + i + typeAndCode + field + icmpRest)[|e| + |i|..] == typeAndCode + field + icmpRest
    ensures Overlay(e + i + typeAndCode + field + icmpRest, |e| + |i| + 2, w) == e + i + typeAndCode + w + icmpRest
  {
    var b := e + i + typeAndCode + field + icmpRest;
    assert b == (e + i) + (typeAndCode + field + icmpRest);
    assert b == (e + i + typeAndCode) + field + icmpRest;
    OverlayMiddle(e + i + typeAndCode, field, icmpRest, w);
  }

  /** The buffer before the checksum is stored, as the encoded reply
      headers and the copied payload laid back to back over zeros. */
  lemma BeforeChecksumLayout(choices: CodecDetails.Choices, mac: EthernetAddress, ip: Ip4Address, size: nat,
                             eth: EthernetHeaders.EthernetHeader, ip4: Ip4Headers.Ip4Header,
                             icmp: Icmp4Headers.Icmp4Header, icmpPayload: seq<byte>,
                             e: seq<byte>, i: seq<byte>, c: seq<byte>)
    requires Ip4Headers.WellFormed(ip4)
    requires EthernetHeaders.HeaderSize + Ip4Headers.HeaderLength(ip4.versionAndIhl) + Icmp4Headers.HeaderSize + |icmpPayload| <= size
    requires e == EthernetHeaders.Encode(eth.(destination := eth.source, source := mac))
    requires i == Ip4Headers.Encode(ip4.(destinationAddress := ip4.sourceAddress, sourceAddress := ip))
    requires c == Icmp4Headers.Encode(Icmp4Headers.AsWritten(choices, icmp.(icmpType := Icmp4Headers.EchoReply)))
    ensures |e| + |i| + |c| + |icmpPayload| <= size
    ensures EchoReplyBeforeChecksum(choices, mac, ip, size, eth, ip4, icmp, icmpPayload)
         == e + i + c + icmpPayload + Zeros(size - (|e| + |i| + |c| + |icmpPayload|))
  {
    var icmpAt := EthernetHeaders.HeaderSize + Ip4Headers.HeaderLength(ip4.versionAndIhl);
    assert icmpPayload[..Min(size - (icmpAt + Icmp4Headers.HeaderSize), |icmpPayload|)] == icmpPayload;
    BackToBack(size, e, i, c, icmpPayload);
  }

  /** The echo reply is the buffer before the checksum with the checksum
      of its ICMP part stored at ICMP offset 2. */
  lemma FrameLayout(choices: CodecDetails.Choices, mac: EthernetAddress, ip: Ip4Address, size: nat,
                    eth: EthernetHeaders.EthernetHeader, ip4: Ip4Headers.Ip4Header,
                    icmp: Icmp4Headers.Icmp4Header, icmpPayload: seq<byte>, b: seq<byte>, k: nat)
    requires Ip4Headers.WellFormed(ip4)
    requires k == EthernetHeaders.HeaderSize + Ip4Headers.HeaderLength(ip4.versionAndIhl) && k + Icmp4Headers.HeaderSize <= size
    requires b == EchoReplyBeforeChecksum(choices, mac, ip, size, eth, ip4, icmp, icmpPayload)
    ensures k + 2 <= |b|
    ensures EchoReplyFrame(choices, mac, ip, size, eth, ip4, icmp, icmpPayload)
         == Overlay(b, k + 2, BeUint16(InternetChecksums.Checksum(b[k..])))
  {
  }

  /** `EchoReplyBytes` in five parts. */
  lemma BytesLayout(choices: CodecDetails.Choices, mac: EthernetAddress, ip: Ip4Address, frame: seq<byte>,
                    e: seq<byte>, i: seq<byte>, typeAndCode: seq<byte>, field: seq<byte>, icmpRest: seq<byte>)
    requires IsEchoRequestFor(choices, ip, frame)
    requires e == frame[6..12] + mac + frame[12..14]
    requires i == frame[14..26] + ip + frame[26..30] + frame[34..IcmpOffset(frame)]
    requires typeAndCode == [Icmp4Headers.EchoReply, frame[IcmpOffset(frame) + 1]]
    requires field == ChecksumFieldAsWritten(choices, frame)
    requires icmpRest == frame[IcmpOffset(frame) + 4..IcmpEnd(choices, frame)] + Zeros(|frame| - IcmpEnd(choices, frame))
    ensures EchoReplyBytes(choices, mac, ip, frame)
         == e + i + typeAndCode + BeUint16(InternetChecksums.Checksum(typeAndCode + field + icmpRest)) + icmpRest
  {
  }

  /** The bytes of the echo reply. */
  lemma EchoReplyContents(choices: CodecDetails.Choices, mac: EthernetAddress, ip: Ip4Address, frame: seq<byte>)
    requires IsEchoRequestFor(choices, ip, frame)
    ensures Respond(choices, mac, ip, frame) == Ok(Some(EchoReplyBytes(choices, mac, ip, frame)))
  {
    var eth, ip4, icmp, icmpPayload := EchoParsed(choices, mac, ip, frame);
    EchoReplyHeaders(choices, mac, ip, frame, eth, ip4, icmp);
    var k := IcmpOffset(frame);
    var end := IcmpEnd(choices, frame);
    var n := |frame|;
    var e := frame[6..12] + mac + frame[12..14];
    var i := frame[14..26] + ip + frame[26..30] + frame[34..k];
    var typeAndCode := [Icmp4Headers.EchoReply, frame[k + 1]];
    var field := ChecksumFieldAsWritten(choices, frame);
    var c := typeAndCode + field + frame[k + 4..k + 8];
    assert |e| + |i| == k;
    BeforeChecksumLayout(choices, mac, ip, n, eth, ip4, icmp, icmpPayload, e, i, c);
    var b := EchoReplyBeforeChecksum(choices, mac, ip, n, eth, ip4, icmp, icmpPayload);
    var icmpRest := frame[k + 4..end] + Zeros(n - end);
    assert frame[k + 4..k + 8] + icmpPayload == frame[k + 4..end];
    Regroup(e, i, typeAndCode, field, frame[k + 4..k + 8], icmpPayload, Zeros(n - end));
    assert b == e + i + typeAndCode + field + icmpRest;
    FrameLayout(choices, mac, ip, n, eth, ip4, icmp, icmpPayload, b, k);
    EchoAssembly(e, i, typeAndCode, field, icmpRest, BeUint16(InternetChecksums.Checksum(b[k..])));
    BytesLayout(choices, mac, ip, frame, e, i, typeAndCode, field, icmpRest);
  }

  /** The ICMP part of five consecutive pieces. */
  lemma IcmpPart(e: seq<byte>, i: seq<byte>, typeAndCode: seq<byte>, w: seq<byte>, icmpRest: seq<byte>)
    ensures (e + i + typeAndCode + w + icmpRest)[|e| + |i|..] == typeAndCode + w + icmpRest
  {
    assert e + i + typeAndCode + w + icmpRest == (e + i) + (typeAndCode + w + icmpRest);
  }

  /** With a zeroed checksum field written first (the RFC 1071 procedure),
      the reply's ICMP message passes the receiver's checksum test. */
  lemma EchoReplyVerifies(choices: CodecDetails.Choices, mac: EthernetAddress, ip: Ip4Address, frame: seq<byte>)
    requires IsEchoRequestFor(choices, ip, frame) && choices.icmpChecksumZeroed
    ensures Sends(Respond(choices, mac, ip, frame))
    ensures InternetChecksums.Verifies(Respond(choices, mac, ip, frame).value.value[IcmpOffset(frame)..])
  {
    EchoReplyContents(choices, mac, ip, frame);
    EchoBytesVerify(choices, mac, ip, frame);
  }

  lemma EchoBytesVerify(choices: CodecDetails.Choices, mac: EthernetAddress, ip: Ip4Address, frame: seq<byte>)
    requires IsEchoRequestFor(choices, ip, frame) && choices.icmpChecksumZeroed
    ensures InternetChecksums.Verifies(EchoReplyBytes(choices, mac, ip, frame)[IcmpOffset(frame)..])
  {
    var k := IcmpOffset(frame);
    var end := IcmpEnd(choices, frame);
    var typeAndCode := [Icmp4Headers.EchoReply, frame[k + 1]];
    var icmpRest := frame[k + 4..end] + Zeros(|frame| - end);
    var segment := typeAndCode + [0, 0] + icmpRest;
    var checksum := InternetChecksums.Checksum(segment);
    var e := frame[6..12] + mac + frame[12..14];
    var i := frame[14..26] + ip + frame[26..30] + frame[34..k];
    assert |e| + |i| == k;
    BytesLayout(choices, mac, ip, frame, e, i, typeAndCode, [0, 0], icmpRest);
    IcmpPart(e, i, typeAndCode, BeUint16(checksum), icmpRest);
    OverlayMiddle(typeAndCode, [0, 0], icmpRest, BeUint16(checksum));
    InternetChecksums.StoredChecksumVerifies(segment);
  }

  /** Frames that are neither ARP nor IPv4, IPv4 packets that are not ICMP,
      and frames too short for an Ethernet header. */
  lemma OtherFrames(choices: CodecDetails.Choices, mac: EthernetAddress, ip: Ip4Address, frame: seq<byte>)
    ensures |frame| < EthernetHeaders.HeaderSize ==> Respond(choices, mac, ip, frame) == Err(InvalidEthernetFrameError)
    ensures |frame| >= EthernetHeaders.HeaderSize && frame[12..14] != ArpTag && frame[12..14] != Ip4Tag
            ==> Respond(choices, mac, ip, frame) == Ok(None)
    ensures HasEtherType(frame, Ip4Tag) && Ip4Headers.Acceptable(frame[14..]) && frame[23] != Ip4Headers.ProtocolIcmp
            ==> Respond(choices, mac, ip, frame) == Ok(None)
  {
    if |frame| >= EthernetHeaders.HeaderSize {
      EtherTypeTags(frame);
      if Ip4Headers.Acceptable(frame[14..]) {
        assert frame[14..][9] == frame[23];
      }
    }
  }
}
