/** The 6-byte link-layer address of tap/Utility/EthernetAddress.hpp.
    Reading and writing go through `asio::buffer_copy`, which copies the
    smaller of the two sizes, so "exactly 6 bytes copied" means "the
    buffer holds at least 6 bytes": longer buffers are accepted. */
module EthernetAddresses {
  import opened Bytes
  import opened Errors

  const AddressSize: nat := 6

  type EthernetAddress = s: seq<byte> | |s| == 6 witness [0, 0, 0, 0, 0, 0]

  /** `operator==`: byte-wise comparison of the two arrays. */
  function Equal(lhs: EthernetAddress, rhs: EthernetAddress): (r: bool)
    ensures r <==> forall i :: 0 <= i < AddressSize ==> lhs[i] == rhs[i]
  {
    lhs == rhs
  }

  /** `operator==` is an equivalence relation. */
  lemma EqualIsEquivalence(a: EthernetAddress, b: EthernetAddress, c: EthernetAddress)
    ensures Equal(a, a)
    ensures Equal(a, b) ==> Equal(b, a)
    ensures Equal(a, b) && Equal(b, c) ==> Equal(a, c)
  {
  }

  /** `ReadEthernetAddress`: copies into a zeroed 6-byte array and throws
      InvalidBufferSize unless 6 bytes were copied. */
  function ReadEthernetAddress(buffer: seq<byte>): (r: Result<EthernetAddress>)
    ensures r.Ok? <==> |buffer| >= AddressSize
    ensures r.Ok? ==> r.value == buffer[..AddressSize]
    ensures r.Err? ==> r.error == InvalidBufferSize
  {
    var copied := Min(AddressSize, |buffer|);
    if copied != AddressSize then Err(InvalidBufferSize)
    else Ok(buffer[..AddressSize])
  }

  /** `WriteEthernetAddress` into the view of `target` starting at `at`.
      The copy happens before the size check, so a short view has already
      been overwritten with a prefix of the address when the error is thrown. */
  method WriteEthernetAddress(target: array<byte>, at: nat, address: EthernetAddress) returns (r: Result<nat>)
    requires at <= target.Length
    modifies target
    ensures var n := Min(target.Length - at, AddressSize);
      target[..] == Overlay(old(target[..]), at, address[..n])
    ensures r.Ok? <==> target.Length - at >= AddressSize
    ensures r.Ok? ==> r.value == AddressSize
    ensures r.Err? ==> r.error == InvalidBufferSize
    ensures r.Ok? ==> ReadEthernetAddress(target[at..]) == Ok(address)
  {
    var copied := BufferCopy(target, at, address);
    if copied != AddressSize {
      return Err(InvalidBufferSize);
    }
    assert address[..copied] == address;
    WrittenAddressReadsBack(old(target[..]), at, address);
    return Ok(AddressSize);
  }

  /** Round trip: reading back the bytes that a successful write produced
      yields the written address, whatever the buffer held before. */
  lemma WrittenAddressReadsBack(s: seq<byte>, at: nat, address: EthernetAddress)
    requires at + AddressSize <= |s|
    ensures ReadEthernetAddress(Overlay(s, at, address)[at..]) == Ok(address)
  {
    var t := Overlay(s, at, address);
    assert t[at..][..AddressSize] == address;
  }
}
