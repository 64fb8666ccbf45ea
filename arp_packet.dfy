/** The RFC 826 ARP packet for Ethernet/IPv4 (`ParseArpIp4Packet`,
    `WriteArpIp4Packet`): hardwareType[2] = 1, protocolType[2] = 0x0800,
    hwLen[1] = 6, protoLen[1] = 4, operation[2], senderHardwareAddress[6],
    senderProtocolAddress[4], targetHardwareAddress[6],
    targetProtocolAddress[4]; 28 bytes. */
module ArpPackets {
  import opened Bytes
  import opened Errors
  import opened EthernetAddresses
  import opened Ip4Addresses

  const PacketSize: nat := 28
  const ArpRequest: uint16 := 1
  const ArpReply: uint16 := 2

  /** The fixed fields every Ethernet/IPv4 ARP packet starts with. */
  const FixedFields: seq<byte> := [0, 1, 8, 0, 6, 4]

  datatype ArpIp4Packet = ArpIp4Packet(
    operation: uint16,
    senderHardwareAddress: EthernetAddress,
    senderProtocolAddress: Ip4Address,
    targetHardwareAddress: EthernetAddress,
    targetProtocolAddress: Ip4Address)

  function Encode(p: ArpIp4Packet): (b: seq<byte>)
    ensures |b| == PacketSize
  {
    FixedFields + BeUint16(p.operation)
      + p.senderHardwareAddress + p.senderProtocolAddress
      + p.targetHardwareAddress + p.targetProtocolAddress
  }

  /** Accepts exactly the payloads of at least 28 bytes that start with the
      fixed fields; the packet, written back, is the first 28 bytes. */
  function Parse(payload: seq<byte>): (r: Result<ArpIp4Packet>)
    ensures r.Ok? <==> |payload| >= PacketSize && payload[..6] == FixedFields
    ensures r.Err? ==> r.error == InvalidArpPacketError
    ensures r.Ok? ==> Encode(r.value) == payload[..PacketSize]
    ensures r.Ok? ==> r.value.operation == Uint16At(payload, 6)
                      && r.value.senderHardwareAddress == payload[8..14]
                      && r.value.senderProtocolAddress == payload[14..18]
                      && r.value.targetHardwareAddress == payload[18..24]
                      && r.value.targetProtocolAddress == payload[24..28]
  {
    if |payload| < PacketSize || payload[..6] != FixedFields then Err(InvalidArpPacketError)
    else
      var p := ArpIp4Packet(Uint16At(payload, 6), payload[8..14], payload[14..18], payload[18..24], payload[24..28]);
      assert Encode(p) == payload[..PacketSize];
      Ok(p)
  }

  /** Parsing what `Encode` produced gives back the packet. */
  lemma ParseEncode(p: ArpIp4Packet, trailer: seq<byte>)
    ensures Parse(Encode(p) + trailer) == Ok(p)
  {
    var b := Encode(p) + trailer;
    assert b[..6] == FixedFields;
    assert b[6..8] == BeUint16(p.operation);
    assert b[8..14] == p.senderHardwareAddress && b[14..18] == p.senderProtocolAddress;
    assert b[18..24] == p.targetHardwareAddress && b[24..28] == p.targetProtocolAddress;
  }

  /** `WriteArpIp4Packet` into the view of `target` starting at `at`. */
  method Write(target: array<byte>, at: nat, p: ArpIp4Packet) returns (written: nat)
    requires at + PacketSize <= target.Length
    modifies target
    ensures written == PacketSize
    ensures target[..] == Overlay(old(target[..]), at, Encode(p))
  {
    WriteBytes(target, at, Encode(p));
    written := PacketSize;
  }
}
