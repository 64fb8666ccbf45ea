/** The 4-byte IPv4 address of tap/Utility/Ip4Address.hpp.
    Reading and writing go through `asio::buffer_copy`, which copies the
    smaller of the two sizes, so "exactly 4 bytes copied" means "the
    buffer holds at least 4 bytes": longer buffers are accepted. */
module Ip4Addresses {
  import opened Bytes
  import opened Errors

  const AddressSize: nat := 4

  type Ip4Address = s: seq<byte> | |s| == 4 witness [0, 0, 0, 0]

  /** `operator==`: byte-wise comparison of the two arrays. */
  function Equal(lhs: Ip4Address, rhs: Ip4Address): (r: bool)
    ensures r <==> forall i :: 0 <= i < AddressSize ==> lhs[i] == rhs[i]
  {
    lhs == rhs
  }

  /** `operator==` is an equivalence relation. */
  lemma EqualIsEquivalence(a: Ip4Address, b: Ip4Address, c: Ip4Address)
    ensures Equal(a, a)
    ensures Equal(a, b) ==> Equal(b, a)
    ensures Equal(a, b) && Equal(b, c) ==> Equal(a, c)
  {
  }

  /** `ReadIp4Address`: copies into a zeroed 4-byte array and throws
      InvalidBufferSize unless 4 bytes were copied. */
  function ReadIp4Address(buffer: seq<byte>): (r: Result<Ip4Address>)
    ensures r.Ok? <==> |buffer| >= AddressSize
    ensures r.Ok? ==> r.value == buffer[..AddressSize]
    ensures r.Err? ==> r.error == InvalidBufferSize
  {
    var copied := Min(AddressSize, |buffer|);
    if copied != AddressSize then Err(InvalidBufferSize)
    else Ok(buffer[..AddressSize])
  }

  /** `WriteIp4Address` into the view of `target` starting at `at`.
      The copy happens before the size check, so a short view has already
      been overwritten with a prefix of the address when the error is thrown. */
  method WriteIp4Address(target: array<byte>, at: nat, address: Ip4Address) returns (r: Result<nat>)
    requires at <= target.Length
    modifies target
    ensures var n := Min(target.Length - at, AddressSize);
      target[..] == Overlay(old(target[..]), at, address[..n])
    ensures r.Ok? <==> target.Length - at >= AddressSize
    ensures r.Ok? ==> r.value == AddressSize
    ensures r.Err? ==> r.error == InvalidBufferSize
    ensures r.Ok? ==> ReadIp4Address(target[at..]) == Ok(address)
  {
    var copied := BufferCopy(target, at, address);
    if copied != AddressSize {
      return Err(InvalidBufferSize);
    }
    assert address[..copied] == address;
    WrittenAddressReadsBack(old(target[..]), at, address);
    return Ok(AddressSize);
  }

  /** Round trip: reading back the bytes that a successful write produced
      yields the written address, whatever the buffer held before. */
  lemma WrittenAddressReadsBack(s: seq<byte>, at: nat, address: Ip4Address)
    requires at + AddressSize <= |s|
    ensures ReadIp4Address(Overlay(s, at, address)[at..]) == Ok(address)
  {
    var t := Overlay(s, at, address);
    assert t[at..][..AddressSize] == address;
  }
}
