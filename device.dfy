/** The ICMP/ARP echo device of tap/demos/IcmpEchoDevice (`demo::Device`).
    `Process` takes one inbound Ethernet frame and either throws, sends
    nothing, or sends exactly one reply frame through the send callback.
    The callback's argument is modelled as the method's result:
    `Ok(Some(f))` means `f` was passed to the callback once, `Ok(None)`
    that nothing was sent, `Err(e)` that exception `e` left `Process`
    before anything was sent (`Process` has no catch). */
module Devices {
  import opened Bytes
  import opened Errors
  import opened EthernetAddresses
  import opened Ip4Addresses
  import EthernetHeaders
  import ArpPackets
  import Ip4Headers
  import Icmp4Headers
  import InternetChecksums
  import CodecDetails

  /** The frame an ARP reply consists of: the Ethernet header and then the
      ARP packet written from offset 0 into `size` zero bytes. */
  function ArpReplyFrame(mac: EthernetAddress, ip: Ip4Address, size: nat,
                         eth: EthernetHeaders.EthernetHeader, arp: ArpPackets.ArpIp4Packet): (reply: seq<byte>)
    requires EthernetHeaders.HeaderSize + ArpPackets.PacketSize <= size
  {
    var replyEth := eth.(destination := arp.senderHardwareAddress, source := mac);
    var replyArp := ArpPackets.ArpIp4Packet(ArpPackets.ArpReply, mac, ip, arp.senderHardwareAddress, arp.senderProtocolAddress);
    var afterEthernet := Overlay(Zeros(size), 0, EthernetHeaders.Encode(replyEth));
    Overlay(afterEthernet, EthernetHeaders.HeaderSize, ArpPackets.Encode(replyArp))
  }

  /** The echo reply before its checksum is filled in: Ethernet header,
      IPv4 header, ICMP header and as much of the ICMP payload as fits,
      written back to back from offset 0 into `size` zero bytes. */
  function EchoReplyBeforeChecksum(choices: CodecDetails.Choices, mac: EthernetAddress, ip: Ip4Address, size: nat,
                                   eth: EthernetHeaders.EthernetHeader, ip4: Ip4Headers.Ip4Header,
                                   icmp: Icmp4Headers.Icmp4Header, icmpPayload: seq<byte>): (b: seq<byte>)
    requires Ip4Headers.WellFormed(ip4)
    requires EthernetHeaders.HeaderSize + Ip4Headers.HeaderLength(ip4.versionAndIhl) + Icmp4Headers.HeaderSize <= size
  {
    var replyEth := eth.(destination := eth.source, source := mac);
    var replyIp4 := ip4.(destinationAddress := ip4.sourceAddress, sourceAddress := ip);
    var replyIcmp := icmp.(icmpType := Icmp4Headers.EchoReply);
    var icmpAt := EthernetHeaders.HeaderSize + Ip4Headers.HeaderLength(ip4.versionAndIhl);
    var afterEthernet := Overlay(Zeros(size), 0, EthernetHeaders.Encode(replyEth));
    var afterIp4 := Overlay(afterEthernet, EthernetHeaders.HeaderSize, Ip4Headers.Encode(replyIp4));
    var afterIcmp := Overlay(afterIp4, icmpAt, Icmp4Headers.Encode(Icmp4Headers.AsWritten(choices, replyIcmp)));
    var copied := Min(size - (icmpAt + Icmp4Headers.HeaderSize), |icmpPayload|);
    Overlay(afterIcmp, icmpAt + Icmp4Headers.HeaderSize, icmpPayload[..copied])
  }

  /** The echo reply: the checksum of everything from the ICMP header to
      the end of the buffer, stored at ICMP offset 2. */
  function EchoReplyFrame(choices: CodecDetails.Choices, mac: EthernetAddress, ip: Ip4Address, size: nat,
                          eth: EthernetHeaders.EthernetHeader, ip4: Ip4Headers.Ip4Header,
                          icmp: Icmp4Headers.Icmp4Header, icmpPayload: seq<byte>): (reply: seq<byte>)
    requires Ip4Headers.WellFormed(ip4)
    requires EthernetHeaders.HeaderSize + Ip4Headers.HeaderLength(ip4.versionAndIhl) + Icmp4Headers.HeaderSize <= size
  {
    var icmpAt := EthernetHeaders.HeaderSize + Ip4Headers.HeaderLength(ip4.versionAndIhl);
    var b := EchoReplyBeforeChecksum(choices, mac, ip, size, eth, ip4, icmp, icmpPayload);
    Overlay(b, icmpAt + 2, BeUint16(InternetChecksums.Checksum(b[icmpAt..])))
  }

  /** What one call of `Process` does with `frame` for a device with the
      identity (`mac`, `ip`); see the module comment for the result. */
  function Respond(choices: CodecDetails.Choices, mac: EthernetAddress, ip: Ip4Address, frame: seq<byte>)
    : (r: Result<Option<seq<byte>>>)
    ensures r.Ok? && r.value.Some? ==> |r.value.value| == |frame|
  {
    match EthernetHeaders.Parse(frame)
    case Err(e) => Err(e)
    case Ok((eth, ethPayload)) =>
      if eth.etherType == EthernetHeaders.EtherTypeArp then
        match ArpPackets.Parse(ethPayload)
        case Err(e) => Err(e)
        case Ok(arp) =>
          if arp.operation == ArpPackets.ArpRequest && Ip4Addresses.Equal(arp.targetProtocolAddress, ip) then
            Ok(Some(ArpReplyFrame(mac, ip, |frame|, eth, arp)))
          else Ok(None)
      else if eth.etherType == EthernetHeaders.EtherTypeIp4 then
        match Ip4Headers.Parse(choices, ethPayload)
        case Err(e) => Err(e)
        case Ok((ip4, ip4Payload)) =>
          if ip4.protocol == Ip4Headers.ProtocolIcmp then
            match Icmp4Headers.Parse(choices, ip4Payload)
            case Err(e) => Err(e)
            case Ok((icmp, icmpPayload)) =>
              if icmp.icmpType == Icmp4Headers.EchoRequest && Ip4Addresses.Equal(ip4.destinationAddress, ip) then
                Ok(Some(EchoReplyFrame(choices, mac, ip, |frame|, eth, ip4, icmp, icmpPayload)))
              else Ok(None)
          else Ok(None)
      else Ok(None)
  }

  class Device {
    /** The device's identity: set once by the constructor, never changed. */
    const ethernetAddress: EthernetAddress
    const ip4Address: Ip4Address

    constructor (ethernetAddress: EthernetAddress, ip4Address: Ip4Address)
      ensures this.ethernetAddress == ethernetAddress && this.ip4Address == ip4Address
    {
      this.ethernetAddress := ethernetAddress;
      this.ip4Address := ip4Address;
    }

    /** A value-initialised vector of `size` bytes. */
    method AllocateBuffer(size: nat) returns (buffer: array<byte>)
      ensures fresh(buffer)
      ensures buffer[..] == Zeros(size)
    {
      buffer := new byte[size](_ => 0);
    }

    /** `Device::Process`: decides from the decoded headers whether to
        answer, and fills the reply through an advancing cursor. */
    method Process(choices: CodecDetails.Choices, incomingData: seq<byte>) returns (sent: Result<Option<seq<byte>>>)
      ensures sent == Respond(choices, ethernetAddress, ip4Address, incomingData)
    {
      var ethernet := EthernetHeaders.Parse(incomingData);
      if ethernet.Err? {
        return Err(ethernet.error);
      }
      var (ethernetHeader, ethernetPayload) := ethernet.value;
      if ethernetHeader.etherType == EthernetHeaders.EtherTypeArp {
        var arp := ArpPackets.Parse(ethernetPayload);
        if arp.Err? {
          return Err(arp.error);
        }
        var arpPacket := arp.value;
        if arpPacket.operation == ArpPackets.ArpRequest {
          if Ip4Addresses.Equal(arpPacket.targetProtocolAddress, ip4Address) {
            var replyEthernetHeader := ethernetHeader.(destination := arpPacket.senderHardwareAddress, source := ethernetAddress);
            var replyArpPacket := ArpPackets.ArpIp4Packet(ArpPackets.ArpReply, ethernetAddress, ip4Address,
                                                          arpPacket.senderHardwareAddress, arpPacket.senderProtocolAddress);
            var reply := AllocateBuffer(|incomingData|);
            var dst := 0;
            var n := EthernetHeaders.Write(reply, dst, replyEthernetHeader);
            dst := dst + n;
            n := ArpPackets.Write(reply, dst, replyArpPacket);
            dst := dst + n;
            return Ok(Some(reply[..]));
          }
        }
        return Ok(None);
      } else if ethernetHeader.etherType == EthernetHeaders.EtherTypeIp4 {
        var ip4 := Ip4Headers.Parse(choices, ethernetPayload);
        if ip4.Err? {
          return Err(ip4.error);
        }
        var (ip4Header, ip4Payload) := ip4.value;
        if ip4Header.protocol == Ip4Headers.ProtocolIcmp {
          var icmp := Icmp4Headers.Parse(choices, ip4Payload);
          if icmp.Err? {
            return Err(icmp.error);
          }
          var (icmp4Header, icmp4Payload) := icmp.value;
          if icmp4Header.icmpType == Icmp4Headers.EchoRequest {
            if Ip4Addresses.Equal(ip4Header.destinationAddress, ip4Address) {
              var replyEthernetHeader := ethernetHeader.(destination := ethernetHeader.source, source := ethernetAddress);
              var replyIp4Header := ip4Header.(destinationAddress := ip4Header.sourceAddress, sourceAddress := ip4Address);
              var replyIcmp4Header := icmp4Header.(icmpType := Icmp4Headers.EchoReply);
              var reply := AllocateBuffer(|incomingData|);
              var dst := 0;
              var n := EthernetHeaders.Write(reply, dst, replyEthernetHeader);
              dst := dst + n;
              n := Ip4Headers.Write(reply, dst, replyIp4Header);
              dst := dst + n;
              var icmp4Dst := dst;
              n := Icmp4Headers.Write(choices, reply, dst, replyIcmp4Header);
              dst := dst + n;
              var copied := BufferCopy(reply, dst, icmp4Payload);
              ghost var beforeChecksum := reply[..];
              assert beforeChecksum == EchoReplyBeforeChecksum(choices, ethernetAddress, ip4Address, |incomingData|,
                                                               ethernetHeader, ip4Header, icmp4Header, icmp4Payload);
              var checksum := InternetChecksums.Checksum(reply[icmp4Dst..]);
              WriteUint16Be(reply, icmp4Dst + 2, checksum);
              return Ok(Some(reply[..]));
            }
          }
        }
        return Ok(None);
      }
      return Ok(None);
    }
  }
}
