/** The echo demo's wiring (tap/demos/IcmpEchoDevice/SilKitDemoEthernetIcmpEchoDevice.cpp):
    a `demo::Device` with a fixed identity whose send callback numbers every
    reply, fed with each frame received from the bus; and the two exchanges
    the demo exists for, worked out on concrete frames. */
module Demo {
  import opened Bytes
  import opened Errors
  import opened EthernetAddresses
  import opened Ip4Addresses
  import ArpPackets
  import Ip4Headers
  import Icmp4Headers
  import InternetChecksums
  import CodecDetails
  import opened Transmit
  import opened Devices
  import opened DeviceProperties

  /** 52:54:56:53:4B:55 and 192.168.7.35. */
  const DemoEthernetAddress: EthernetAddress := [0x52, 0x54, 0x56, 0x53, 0x4B, 0x55]
  const DemoIp4Address: Ip4Address := [192, 168, 7, 35]

  /** The device's send callback: hands the reply to the controller with
      `++transmitId` and returns what the debug log line reports. */
  method DemoSendCallback(controller: FrameSender, data: seq<byte>) returns (frameSize: nat, loggedId: int)
    requires controller.Valid()
    modifies controller
    ensures controller.Valid()
    ensures controller.sent == old(controller.sent) + [Transmission(data, loggedId)]
    ensures loggedId == old(controller.transmitId) + 1
    ensures frameSize == |data|
  {
    frameSize := |data|;
    loggedId := controller.Send(data);
  }

  /** The frame handler: `demoDevice.Process(rawFrame)`, whose reply, if
      any, goes through the send callback. At most one transmit id is used
      per received frame, and none when `Process` throws. */
  method OnReceivedEthernetMessageFromSilKit(choices: CodecDetails.Choices, device: Device, controller: FrameSender,
                                             rawFrame: seq<byte>) returns (outcome: Result<Option<int>>)
    requires controller.Valid()
    modifies controller
    ensures controller.Valid()
    ensures var reply := Respond(choices, device.ethernetAddress, device.ip4Address, rawFrame);
      if Sends(reply) then
        outcome == Ok(Some(old(controller.transmitId) + 1))
        && controller.sent == old(controller.sent) + [Transmission(reply.value.value, old(controller.transmitId) + 1)]
      else
        controller.sent == old(controller.sent) && controller.transmitId == old(controller.transmitId)
        && (outcome.Err? <==> reply.Err?) && (reply.Err? ==> outcome.error == reply.error)
  {
    var sent := device.Process(choices, rawFrame);
    if sent.Err? {
      return Err(sent.error);
    }
    if sent.value.Some? {
      var _, id := DemoSendCallback(controller, sent.value.value);
      return Ok(Some(id));
    }
    return Ok(None);
  }

  /** An Ethernet/IPv4 ARP request frame, from `ethSource`, asking who has
      `tpa`; `sha`/`spa` are the sender's addresses, `tha` the (ignored)
      target hardware address. */
  function ArpRequest(destination: EthernetAddress, ethSource: EthernetAddress, sha: EthernetAddress, spa: Ip4Address,
                      tha: EthernetAddress, tpa: Ip4Address): (frame: seq<byte>)
    ensures |frame| == 42
  {
    destination + ethSource + ArpTag + ArpPackets.FixedFields + [0, 1] + sha + spa + tha + tpa
  }

  /** The ARP reply of RFC 826: to the requester's hardware address, from
      the device, operation 2, sender the device, target the requester. */
  function ArpReply(mac: EthernetAddress, ip: Ip4Address, sha: EthernetAddress, spa: Ip4Address): (frame: seq<byte>)
    ensures |frame| == 42
  {
    sha + mac + ArpTag + ArpPackets.FixedFields + [0, 2] + mac + ip + sha + spa
  }

  /** A device asked for its own address answers with exactly that reply,
      whatever bytes follow the 42-byte request (such as the zeros that pad
      it to the 60-byte Ethernet minimum); the reply is zero-padded to the
      same length. */
  lemma ArpExchange(choices: CodecDetails.Choices, mac: EthernetAddress, ip: Ip4Address, destination: EthernetAddress,
                    ethSource: EthernetAddress, sha: EthernetAddress, spa: Ip4Address, tha: EthernetAddress,
                    trailer: seq<byte>)
    ensures Respond(choices, mac, ip, ArpRequest(destination, ethSource, sha, spa, tha, ip) + trailer)
         == Ok(Some(ArpReply(mac, ip, sha, spa) + Zeros(|trailer|)))
  {
    var request := ArpRequest(destination, ethSource, sha, spa, tha, ip);
    var frame := request + trailer;
    var front := destination + ethSource + ArpTag + ArpPackets.FixedFields + [0, 1];
    assert |front| == 22;
    assert request == front + sha + spa + tha + ip;
    assert frame[..42] == request;
    assert frame[12..14] == ArpTag && frame[14..20] == ArpPackets.FixedFields && frame[20..22] == [0, 1];
    assert frame[22..28] == sha && frame[28..32] == spa && frame[38..42] == ip;
    assert IsArpRequestFor(ip, frame);
    ArpReplyContents(choices, mac, ip, frame);
    assert ArpReplyBytes(mac, ip, frame) == ArpReply(mac, ip, sha, spa) + Zeros(|trailer|);
  }

  /** The demo's first exchange: AA:BB:CC:DD:EE:FF at 192.168.7.1 asks,
      by broadcast, who has 192.168.7.35. */
  lemma ArpScenario(choices: CodecDetails.Choices)
    ensures var requester: EthernetAddress := [0xAA, 0xBB, 0xCC, 0xDD, 0xEE, 0xFF];
      var broadcast: EthernetAddress := [0xFF, 0xFF, 0xFF, 0xFF, 0xFF, 0xFF];
      var requesterIp: Ip4Address := [192, 168, 7, 1];
      Respond(choices, DemoEthernetAddress, DemoIp4Address,
              ArpRequest(broadcast, requester, requester, requesterIp, [0, 0, 0, 0, 0, 0], DemoIp4Address))
        == Ok(Some(ArpReply(DemoEthernetAddress, DemoIp4Address, requester, requesterIp)))
  {
    assert ArpRequest([0xFF, 0xFF, 0xFF, 0xFF, 0xFF, 0xFF], [0xAA, 0xBB, 0xCC, 0xDD, 0xEE, 0xFF],
                      [0xAA, 0xBB, 0xCC, 0xDD, 0xEE, 0xFF], [192, 168, 7, 1], [0, 0, 0, 0, 0, 0], DemoIp4Address) + []
        == ArpRequest([0xFF, 0xFF, 0xFF, 0xFF, 0xFF, 0xFF], [0xAA, 0xBB, 0xCC, 0xDD, 0xEE, 0xFF],
                      [0xAA, 0xBB, 0xCC, 0xDD, 0xEE, 0xFF], [192, 168, 7, 1], [0, 0, 0, 0, 0, 0], DemoIp4Address);
    assert ArpReply(DemoEthernetAddress, DemoIp4Address, [0xAA, 0xBB, 0xCC, 0xDD, 0xEE, 0xFF], [192, 168, 7, 1]) + Zeros(0)
        == ArpReply(DemoEthernetAddress, DemoIp4Address, [0xAA, 0xBB, 0xCC, 0xDD, 0xEE, 0xFF], [192, 168, 7, 1]);
    ArpExchange(choices, DemoEthernetAddress, DemoIp4Address, [0xFF, 0xFF, 0xFF, 0xFF, 0xFF, 0xFF],
                [0xAA, 0xBB, 0xCC, 0xDD, 0xEE, 0xFF], [0xAA, 0xBB, 0xCC, 0xDD, 0xEE, 0xFF], [192, 168, 7, 1],
                [0, 0, 0, 0, 0, 0], []);
  }

  /** An IPv4 frame carrying an ICMP Echo Request from `srcIp` to `dstIp`:
      `ipFront` is the first 12 bytes of an option-less IPv4 header,
      `idAndSequence` the identifier and sequence number. */
  function EchoRequest(destination: EthernetAddress, source: EthernetAddress, ipFront: seq<byte>,
                       srcIp: Ip4Address, dstIp: Ip4Address, code: byte, checksum: seq<byte>,
                       idAndSequence: seq<byte>, payload: seq<byte>): (frame: seq<byte>)
    ensures |frame| == 14 + |ipFront| + 8 + |checksum| + |idAndSequence| + |payload| + 2
  {
    destination + source + Ip4Tag + ipFront + srcIp + dstIp + [Icmp4Headers.EchoRequest, code] + checksum + idAndSequence + payload
  }

  /** What makes `ipFront` the start of a 20-byte IPv4 header of an ICMP
      packet whose total length covers exactly the ICMP message. */
  predicate IcmpIp4Front(ipFront: seq<byte>, payload: seq<byte>)
  {
    |ipFront| == 12 && ipFront[0] == 0x45 && ipFront[9] == Ip4Headers.ProtocolIcmp
    && 28 + |payload| < 0x1_0000 && ipFront[2..4] == BeUint16(28 + |payload|)
  }

  /** An echo request to the device is answered: addresses swapped, the
      rest of the IPv4 header kept, type 0 with the code, identifier,
      sequence number and payload of the request, and, when the checksum
      field is zeroed before summing, a valid ICMP checksum. */
  lemma EchoExchange(choices: CodecDetails.Choices, mac: EthernetAddress, ip: Ip4Address,
                     destination: EthernetAddress, source: EthernetAddress, ipFront: seq<byte>, srcIp: Ip4Address,
                     code: byte, checksum: seq<byte>, idAndSequence: seq<byte>, payload: seq<byte>)
    requires IcmpIp4Front(ipFront, payload) && |checksum| == 2 && |idAndSequence| == 4
    ensures var frame := EchoRequest(destination, source, ipFront, srcIp, ip, code, checksum, idAndSequence, payload);
      var r := Respond(choices, mac, ip, frame);
      Sends(r)
      && |r.value.value| == |frame|
      && r.value.value[..12] == source + mac
      && r.value.value[12..26] == Ip4Tag + ipFront
      && r.value.value[26..34] == ip + srcIp
      && r.value.value[34..36] == [Icmp4Headers.EchoReply, code]
      && r.value.value[38..42] == idAndSequence && r.value.value[42..] == payload
      && (choices.icmpChecksumZeroed ==> InternetChecksums.Verifies(r.value.value[34..]))
  {
    var frame := EchoRequest(destination, source, ipFront, srcIp, ip, code, checksum, idAndSequence, payload);
    EchoRequestRecognised(choices, ip, destination, source, ipFront, srcIp, code, checksum, idAndSequence, payload);
    EchoReplyContents(choices, mac, ip, frame);
    EchoReplyShape(choices, mac, ip, frame, source, ipFront, srcIp, code, idAndSequence + payload);
    EchoTail(Respond(choices, mac, ip, frame).value.value, idAndSequence, payload);
    if choices.icmpChecksumZeroed {
      EchoReplyVerifies(choices, mac, ip, frame);
    }
  }

  /** The identifier, sequence number and payload at the end of a reply. */
  lemma EchoTail(reply: seq<byte>, idAndSequence: seq<byte>, payload: seq<byte>)
    requires |idAndSequence| == 4 && |reply| >= 38 && reply[38..] == idAndSequence + payload
    ensures reply[38..42] == idAndSequence && reply[42..] == payload
  {
    SliceOfSlice(reply, 38, |reply|, 0, 4);
    SliceOfSlice(reply, 38, |reply|, 4, |reply| - 38);
    assert reply[38..] == reply[38..|reply|];
  }

  /** The reply bytes of a recognised request, piece by piece. */
  lemma EchoReplyShape(choices: CodecDetails.Choices, mac: EthernetAddress, ip: Ip4Address, frame: seq<byte>,
                       source: EthernetAddress, ipFront: seq<byte>, srcIp: Ip4Address, code: byte, icmpTail: seq<byte>)
    requires IsEchoRequestFor(choices, ip, frame)
    requires IcmpOffset(frame) == 34 && IcmpEnd(choices, frame) == |frame|
    requires frame[6..12] == source && frame[12..14] == Ip4Tag && frame[14..26] == ipFront && frame[26..30] == srcIp
    requires frame[35] == code && frame[38..] == icmpTail
    ensures var reply := EchoReplyBytes(choices, mac, ip, frame);
      && |reply| == |frame|
      && reply[..12] == source + mac
      && reply[12..26] == Ip4Tag + ipFront
      && reply[26..34] == ip + srcIp
      && reply[34..36] == [Icmp4Headers.EchoReply, code]
      && reply[38..] == icmpTail
  {
    var reply := EchoReplyBytes(choices, mac, ip, frame);
    var typeAndCode := [Icmp4Headers.EchoReply, code];
    var icmpRest := frame[38..|frame|] + Zeros(0);
    var sum := InternetChecksums.Checksum(typeAndCode + ChecksumFieldAsWritten(choices, frame) + icmpRest);
    var head := source + mac + (Ip4Tag + ipFront) + (ip + srcIp);
    assert |head| == 34;
    assert frame[34..34] == [] && icmpRest == icmpTail;
    assert frame[6..12] + mac + frame[12..14] + frame[14..26] + ip + frame[26..30] == head;
    assert reply == head + typeAndCode + BeUint16(sum) + icmpRest;
    assert reply[..12] == source + mac;
    assert reply[12..26] == Ip4Tag + ipFront;
    assert reply[26..34] == ip + srcIp;
    assert reply[34..36] == typeAndCode;
    assert reply[38..] == icmpRest;
  }

  /** The bytes of such a request, as the echo decision reads them. */
  lemma EchoRequestRecognised(choices: CodecDetails.Choices, ip: Ip4Address,
                              destination: EthernetAddress, source: EthernetAddress, ipFront: seq<byte>, srcIp: Ip4Address,
                              code: byte, checksum: seq<byte>, idAndSequence: seq<byte>, payload: seq<byte>)
    requires IcmpIp4Front(ipFront, payload) && |checksum| == 2 && |idAndSequence| == 4
    ensures var frame := EchoRequest(destination, source, ipFront, srcIp, ip, code, checksum, idAndSequence, payload);
      && IsEchoRequestFor(choices, ip, frame)
      && IcmpOffset(frame) == 34 && IcmpEnd(choices, frame) == |frame|
      && frame[6..12] == source && frame[12..14] == Ip4Tag && frame[14..26] == ipFront && frame[26..30] == srcIp
      && frame[35] == code && frame[38..] == idAndSequence + payload
  {
    var frame := EchoRequest(destination, source, ipFront, srcIp, ip, code, checksum, idAndSequence, payload);
    var packet := frame[14..];
    assert packet == ipFront + srcIp + ip + [Icmp4Headers.EchoRequest, code] + checksum + idAndSequence + payload;
    assert packet[0] == 0x45 && packet[9] == Ip4Headers.ProtocolIcmp;
    assert Ip4Headers.HeaderLength(packet[0]) == 20;
    assert packet[2..4] == BeUint16(28 + |payload|);
    assert Uint16At(packet, 2) == 28 + |payload|;
    assert Ip4Headers.Acceptable(packet);
    assert IcmpEnd(choices, frame) == |frame|;
    var front := destination + source + Ip4Tag + ipFront + srcIp + ip;
    assert |front| == 34;
    assert frame == front + [Icmp4Headers.EchoRequest, code] + checksum + idAndSequence + payload;
    assert frame[34] == Icmp4Headers.EchoRequest && frame[35] == code;
    assert frame[30..34] == ip;
  }

  /** The demo's second exchange: an echo request from 192.168.7.1 to the
      device with identifier 0x1234, sequence number 1 and the 8-byte
      payload 1..8. */
  lemma EchoScenario(choices: CodecDetails.Choices)
    ensures var requester: EthernetAddress := [0xAA, 0xBB, 0xCC, 0xDD, 0xEE, 0xFF];
      var requesterIp: Ip4Address := [192, 168, 7, 1];
      var payload: seq<byte> := [1, 2, 3, 4, 5, 6, 7, 8];
      var frame := EchoRequest(DemoEthernetAddress, requester, [0x45, 0, 0, 36, 0, 0, 0, 0, 64, 1, 0, 0],
                               requesterIp, DemoIp4Address, 0, [0, 0], [0x12, 0x34, 0, 1], payload);
      var r := Respond(choices, DemoEthernetAddress, DemoIp4Address, frame);
      Sends(r) && |r.value.value| == 50
      && r.value.value[..12] == requester + DemoEthernetAddress
      && r.value.value[26..34] == DemoIp4Address + requesterIp
      && r.value.value[34..36] == [Icmp4Headers.EchoReply, 0]
      && r.value.value[42..] == payload
      && (choices.icmpChecksumZeroed ==> InternetChecksums.Verifies(r.value.value[34..]))
  {
    var payload: seq<byte> := [1, 2, 3, 4, 5, 6, 7, 8];
    var ipFront: seq<byte> := [0x45, 0, 0, 36, 0, 0, 0, 0, 64, 1, 0, 0];
    assert BeUint16(28 + |payload|) == [0, 36];
    assert IcmpIp4Front(ipFront, payload);
    EchoExchange(choices, DemoEthernetAddress, DemoIp4Address, DemoEthernetAddress, [0xAA, 0xBB, 0xCC, 0xDD, 0xEE, 0xFF],
                 ipFront, [192, 168, 7, 1], 0, [0, 0], [0x12, 0x34, 0, 1], payload);
  }
}
