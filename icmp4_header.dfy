/** The RFC 792 ICMP header (`ParseIcmp4Header`, `WriteIcmp4Header`):
    type[1], code[1], checksum[2], then 4 bytes that an echo message uses
    for identifier and sequence number; the payload follows. */
module Icmp4Headers {
  import opened Bytes
  import opened Errors
  import CodecDetails

  const HeaderSize: nat := 8
  const EchoReply: byte := 0
  const EchoRequest: byte := 8

  type RestOfHeader = s: seq<byte> | |s| == 4 witness [0, 0, 0, 0]

  datatype Icmp4Header = Icmp4Header(icmpType: byte, code: byte, checksum: uint16, rest: RestOfHeader)

  function Encode(h: Icmp4Header): (b: seq<byte>)
    ensures |b| == HeaderSize
  {
    [h.icmpType, h.code] + BeUint16(h.checksum) + h.rest
  }

  /** Splits an ICMP message into its header and payload. */
  function Parse(choices: CodecDetails.Choices, packet: seq<byte>): (r: Result<(Icmp4Header, seq<byte>)>)
    ensures r.Ok? <==> |packet| >= HeaderSize
    ensures r.Err? ==> r.error == choices.icmpTooShortError
    ensures r.Ok? ==> Encode(r.value.0) == packet[..HeaderSize] && r.value.1 == packet[HeaderSize..]
    ensures r.Ok? ==> r.value.0.icmpType == packet[0]
  {
    if |packet| < HeaderSize then Err(choices.icmpTooShortError)
    else
      var h := Icmp4Header(packet[0], packet[1], Uint16At(packet, 2), packet[4..8]);
      assert Encode(h) == packet[..HeaderSize];
      Ok((h, packet[HeaderSize..]))
  }

  /** Parsing what `Encode` produced gives back the header and the payload. */
  lemma ParseEncode(choices: CodecDetails.Choices, h: Icmp4Header, payload: seq<byte>)
    ensures Parse(choices, Encode(h) + payload) == Ok((h, payload))
  {
    var b := Encode(h) + payload;
    assert b[2..4] == BeUint16(h.checksum);
    assert b[4..8] == h.rest;
    assert b[HeaderSize..] == payload;
  }

  /** The header as `WriteIcmp4Header` lays it out: with a zero checksum
      field, or with the header's own checksum value. */
  function AsWritten(choices: CodecDetails.Choices, h: Icmp4Header): (w: Icmp4Header)
    ensures w.icmpType == h.icmpType && w.code == h.code && w.rest == h.rest
    ensures w.checksum == if choices.icmpChecksumZeroed then 0 else h.checksum
  {
    if choices.icmpChecksumZeroed then h.(checksum := 0) else h
  }

  /** `WriteIcmp4Header` into the view of `target` starting at `at`. */
  method Write(choices: CodecDetails.Choices, target: array<byte>, at: nat, h: Icmp4Header) returns (written: nat)
    requires at + HeaderSize <= target.Length
    modifies target
    ensures written == HeaderSize
    ensures target[..] == Overlay(old(target[..]), at, Encode(AsWritten(choices, h)))
  {
    WriteBytes(target, at, Encode(AsWritten(choices, h)));
    written := HeaderSize;
  }
}
