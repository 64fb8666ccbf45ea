/** The Ethernet II header (`ParseEthernetHeader`, `WriteEthernetHeader`):
    destination[6], source[6], etherType[2] in network byte order. */
module EthernetHeaders {
  import opened Bytes
  import opened Errors
  import opened EthernetAddresses

  const HeaderSize: nat := 14
  const EtherTypeIp4: uint16 := 0x0800
  const EtherTypeArp: uint16 := 0x0806

  datatype EthernetHeader = EthernetHeader(destination: EthernetAddress, source: EthernetAddress, etherType: uint16)

  function Encode(h: EthernetHeader): (b: seq<byte>)
    ensures |b| == HeaderSize
  {
    h.destination + h.source + BeUint16(h.etherType)
  }

  /** Splits a frame into its header and the bytes after it; the header,
      written back, is the frame's first 14 bytes. */
  function Parse(frame: seq<byte>): (r: Result<(EthernetHeader, seq<byte>)>)
    ensures r.Ok? <==> |frame| >= HeaderSize
    ensures r.Err? ==> r.error == InvalidEthernetFrameError
    ensures r.Ok? ==> Encode(r.value.0) == frame[..HeaderSize] && r.value.1 == frame[HeaderSize..]
    ensures r.Ok? ==> r.value.0.destination == frame[0..6] && r.value.0.source == frame[6..12]
                      && r.value.0.etherType == Uint16At(frame, 12)
  {
    if |frame| < HeaderSize then Err(InvalidEthernetFrameError)
    else
      var h := EthernetHeader(frame[0..6], frame[6..12], Uint16At(frame, 12));
      assert Encode(h) == frame[..HeaderSize];
      Ok((h, frame[HeaderSize..]))
  }

  /** Parsing what `Encode` produced gives back the header and the payload. */
  lemma ParseEncode(h: EthernetHeader, payload: seq<byte>)
    ensures Parse(Encode(h) + payload) == Ok((h, payload))
  {
    var frame := Encode(h) + payload;
    assert frame[0..6] == h.destination && frame[6..12] == h.source;
    assert frame[12..14] == BeUint16(h.etherType);
    assert frame[HeaderSize..] == payload;
  }

  /** `WriteEthernetHeader` into the view of `target` starting at `at`. */
  method Write(target: array<byte>, at: nat, h: EthernetHeader) returns (written: nat)
    requires at + HeaderSize <= target.Length
    modifies target
    ensures written == HeaderSize
    ensures target[..] == Overlay(old(target[..]), at, Encode(h))
  {
    WriteBytes(target, at, Encode(h));
    written := HeaderSize;
  }
}
