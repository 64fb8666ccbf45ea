/** The RFC 791 section 3.1 IPv4 header (`ParseIp4Header`, `WriteIp4Header`):
    version/IHL[1], type of service[1], totalLength[2], identification[2],
    flags/fragment offset[2], time to live[1], protocol[1], header
    checksum[2], sourceAddress[4], destinationAddress[4], then IHL*4 - 20
    bytes of options. The options and the fields the responder does not
    inspect are carried through unchanged. */
module Ip4Headers {
  import opened Bytes
  import opened Errors
  import opened Ip4Addresses
  import CodecDetails
  import InternetChecksums

  const MinHeaderSize: nat := 20
  const ProtocolIcmp: byte := 1

  datatype Ip4Header = Ip4Header(
    versionAndIhl: byte,
    typeOfService: byte,
    totalLength: uint16,
    identification: uint16,
    flagsAndFragmentOffset: uint16,
    timeToLive: byte,
    protocol: byte,
    headerChecksum: uint16,
    sourceAddress: Ip4Address,
    destinationAddress: Ip4Address,
    options: seq<byte>)

  /** The header length in bytes that the IHL field declares. */
  function HeaderLength(versionAndIhl: byte): nat
  {
    (versionAndIhl as int % 16) * 4
  }

  /** The header's options fill exactly the length its IHL declares. */
  predicate WellFormed(h: Ip4Header)
  {
    HeaderLength(h.versionAndIhl) >= MinHeaderSize
      && |h.options| == HeaderLength(h.versionAndIhl) - MinHeaderSize
  }

  function Encode(h: Ip4Header): (b: seq<byte>)
    ensures |b| == MinHeaderSize + |h.options|
  {
    [h.versionAndIhl, h.typeOfService] + BeUint16(h.totalLength)
      + BeUint16(h.identification) + BeUint16(h.flagsAndFragmentOffset)
      + [h.timeToLive, h.protocol] + BeUint16(h.headerChecksum)
      + h.sourceAddress + h.destinationAddress + h.options
  }

  /** Where the payload that `ParseIp4Header` returns ends. */
  function PayloadEnd(choices: CodecDetails.Choices, packet: seq<byte>): (e: nat)
    requires |packet| >= 4
    ensures Acceptable(packet) ==> HeaderLength(packet[0]) <= e <= |packet|
  {
    var headerLength := HeaderLength(packet[0]);
    var totalLength := Uint16At(packet, 2);
    if choices.ip4PayloadTrimmed then (if totalLength < headerLength then headerLength else totalLength)
    else |packet|
  }

  /** The length checks `ParseIp4Header` applies: the IHL is at least 5
      and both the header it declares and `totalLength` fit in the packet. */
  function Acceptable(packet: seq<byte>): (ok: bool)
    ensures ok <==> |packet| >= MinHeaderSize && 5 <= packet[0] as int % 16
                    && (packet[0] as int % 16) * 4 <= |packet| && packet[2] as int * 0x100 + packet[3] as int <= |packet|
    ensures ok ==> HeaderLength(packet[0]) <= 60
  {
    && |packet| >= MinHeaderSize
    && HeaderLength(packet[0]) >= MinHeaderSize
    && HeaderLength(packet[0]) <= |packet|
    && Uint16At(packet, 2) <= |packet|
  }

  /** Splits a packet into its header and payload; the header, written back,
      is the packet's first IHL*4 bytes. */
  function Parse(choices: CodecDetails.Choices, packet: seq<byte>): (r: Result<(Ip4Header, seq<byte>)>)
    ensures r.Ok? <==> Acceptable(packet)
    ensures r.Err? ==> r.error == InvalidIp4PacketError
    ensures r.Ok? ==> var headerLength := HeaderLength(packet[0]);
      && WellFormed(r.value.0)
      && HeaderLength(r.value.0.versionAndIhl) == headerLength
      && Encode(r.value.0) == packet[..headerLength]
      && headerLength <= PayloadEnd(choices, packet) <= |packet|
      && r.value.1 == packet[headerLength..PayloadEnd(choices, packet)]
    ensures r.Ok? ==> r.value.0.protocol == packet[9]
                      && r.value.0.sourceAddress == packet[12..16]
                      && r.value.0.destinationAddress == packet[16..20]
  {
    if !Acceptable(packet) then Err(InvalidIp4PacketError)
    else
      var headerLength := HeaderLength(packet[0]);
      var h := Ip4Header(packet[0], packet[1], Uint16At(packet, 2), Uint16At(packet, 4), Uint16At(packet, 6),
                         packet[8], packet[9], Uint16At(packet, 10), packet[12..16], packet[16..20],
                         packet[MinHeaderSize..headerLength]);
      assert Encode(h) == packet[..headerLength];
      Ok((h, packet[headerLength..PayloadEnd(choices, packet)]))
  }

  /** Parsing what `Encode` produced, followed by the rest of the packet,
      gives back the header. */
  lemma ParseEncode(choices: CodecDetails.Choices, h: Ip4Header, payload: seq<byte>)
    requires WellFormed(h) && h.totalLength <= |Encode(h)| + |payload|
    ensures Parse(choices, Encode(h) + payload).Ok?
    ensures Parse(choices, Encode(h) + payload).value.0 == h
  {
    var b := Encode(h) + payload;
    assert b[0] == h.versionAndIhl && b[1] == h.typeOfService && b[8] == h.timeToLive && b[9] == h.protocol;
    assert b[2..4] == BeUint16(h.totalLength);
    assert b[4..6] == BeUint16(h.identification);
    assert b[6..8] == BeUint16(h.flagsAndFragmentOffset);
    assert b[10..12] == BeUint16(h.headerChecksum);
    assert b[12..16] == h.sourceAddress && b[16..20] == h.destinationAddress;
    assert b[MinHeaderSize..HeaderLength(h.versionAndIhl)] == h.options;
  }

  /** Replacing the two addresses changes exactly header bytes 12 to 20. */
  lemma EncodeWithAddresses(h: Ip4Header, source: Ip4Address, destination: Ip4Address)
    ensures Encode(h.(sourceAddress := source, destinationAddress := destination))
         == Encode(h)[..12] + source + destination + Encode(h)[MinHeaderSize..]
  {
  }

  /** The reply keeps the request's header checksum, and that stays right:
      when the request was addressed to `ip`, swapping the addresses to
      (`ip`, old source) only exchanges two aligned 4-byte fields, so the
      header's word sum, and with it the RFC 1071 check, is unchanged. */
  lemma SwappedAddressesKeepChecksum(h: Ip4Header, ip: Ip4Address)
    requires h.destinationAddress == ip
    ensures var reply := h.(destinationAddress := h.sourceAddress, sourceAddress := ip);
      && InternetChecksums.WordSum(Encode(reply)) == InternetChecksums.WordSum(Encode(h))
      && (InternetChecksums.Verifies(Encode(reply)) <==> InternetChecksums.Verifies(Encode(h)))
  {
    var reply := h.(destinationAddress := h.sourceAddress, sourceAddress := ip);
    var front := Encode(h)[..12];
    var rest := Encode(h)[MinHeaderSize..];
    EncodeWithAddresses(h, ip, h.sourceAddress);
    assert Encode(reply) == front + ip + h.sourceAddress + rest;
    assert Encode(h) == front + h.sourceAddress + ip + rest;
    InternetChecksums.WordSumConcat(front + ip + h.sourceAddress, rest);
    InternetChecksums.WordSumConcat(front + ip, h.sourceAddress);
    InternetChecksums.WordSumConcat(front, ip);
    InternetChecksums.WordSumConcat(front + h.sourceAddress + ip, rest);
    InternetChecksums.WordSumConcat(front + h.sourceAddress, ip);
    InternetChecksums.WordSumConcat(front, h.sourceAddress);
  }

  /** `WriteIp4Header` into the view of `target` starting at `at`: it
      writes the header's own length, IHL*4 bytes. */
  method Write(target: array<byte>, at: nat, h: Ip4Header) returns (written: nat)
    requires WellFormed(h) && at + HeaderLength(h.versionAndIhl) <= target.Length
    modifies target
    ensures written == HeaderLength(h.versionAndIhl)
    ensures target[..] == Overlay(old(target[..]), at, Encode(h))
  {
    WriteBytes(target, at, Encode(h));
    written := HeaderLength(h.versionAndIhl);
  }
}
