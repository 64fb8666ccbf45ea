/** Byte buffers: the values, the big-endian 16-bit accessors and the
    asio-style copy into a mutable buffer view that every writer below uses.
    A mutable buffer view `asio::mutable_buffer` is modelled as an array
    together with the offset at which the view starts; the view always
    lies within the array (asio clamps `dst += n` to the view's size). */
module Bytes {

  type byte = b: int | 0 <= b < 0x100
  type uint16 = n: int | 0 <= n < 0x1_0000

  function Min(a: nat, b: nat): (m: nat)
    ensures m <= a && m <= b && (m == a || m == b)
  {
    if a <= b then a else b
  }

  /** A value-initialised byte vector: `n` zero bytes. */
  function Zeros(n: nat): (z: seq<byte>)
    ensures |z| == n
    ensures forall i :: 0 <= i < n ==> z[i] == 0
  {
    seq(n, _ => 0)
  }

  predicate AllZero(s: seq<byte>)
  {
    forall i :: 0 <= i < |s| ==> s[i] == 0
  }

  /** `s` with the bytes `w` written over it from offset `at` on. */
  function Overlay(s: seq<byte>, at: nat, w: seq<byte>): (r: seq<byte>)
    requires at + |w| <= |s|
    ensures |r| == |s|
  {
    s[..at] + w + s[at + |w|..]
  }

  /** Each byte of an overlay comes from `w` inside its range and from `s` outside. */
  lemma OverlayAt(s: seq<byte>, at: nat, w: seq<byte>)
    requires at + |w| <= |s|
    ensures forall i :: 0 <= i < |s| ==> Overlay(s, at, w)[i] == if at <= i < at + |w| then w[i - at] else s[i]
  {
  }

  /** Writing `w` right after a written prefix `p` of a zero buffer. */
  lemma AppendOverZeros(p: seq<byte>, w: seq<byte>, n: nat)
    requires |p| + |w| <= n
    ensures Overlay(p + Zeros(n - |p|), |p|, w) == p + w + Zeros(n - |p| - |w|)
  {
    var lhs := Overlay(p + Zeros(n - |p|), |p|, w);
    var rhs := p + w + Zeros(n - |p| - |w|);
    OverlayAt(p + Zeros(n - |p|), |p|, w);
    assert forall i :: 0 <= i < n ==> lhs[i] == rhs[i];
  }

  /** Four pieces written back to back from offset 0 into zeros. */
  lemma BackToBack(n: nat, a: seq<byte>, b: seq<byte>, c: seq<byte>, d: seq<byte>)
    requires |a| + |b| + |c| + |d| <= n
    ensures Overlay(Overlay(Overlay(Overlay(Zeros(n), 0, a), |a|, b), |a| + |b|, c), |a| + |b| + |c|, d)
         == a + b + c + d + Zeros(n - |a| - |b| - |c| - |d|)
  {
    assert [] + Zeros(n) == Zeros(n);
    AppendOverZeros([], a, n);
    assert [] + a == a;
    AppendOverZeros(a, b, n);
    AppendOverZeros(a + b, c, n);
    AppendOverZeros(a + b + c, d, n);
  }

  /** Overwriting the middle part `x` of `p + x + q` with bytes of the same length. */
  lemma OverlayMiddle(p: seq<byte>, x: seq<byte>, q: seq<byte>, w: seq<byte>)
    requires |x| == |w|
    ensures Overlay(p + x + q, |p|, w) == p + w + q
  {
    var lhs := Overlay(p + x + q, |p|, w);
    OverlayAt(p + x + q, |p|, w);
    assert forall i :: 0 <= i < |lhs| ==> lhs[i] == (p + w + q)[i];
  }

  /** A slice of a slice is a slice of the whole. */
  lemma SliceOfSlice(s: seq<byte>, a: nat, b: nat, c: nat, d: nat)
    requires a <= b <= |s| && c <= d <= b - a
    ensures s[a..b][c..d] == s[a + c..a + d]
  {
    var lhs, rhs := s[a..b][c..d], s[a + c..a + d];
    assert |lhs| == |rhs|;
    forall i | 0 <= i < |lhs|
      ensures lhs[i] == rhs[i]
    {
      assert lhs[i] == s[a..b][c + i] == s[a + c + i];
    }
  }

  /** A slice of a suffix is a slice of the whole. */
  lemma SliceOfSuffix(s: seq<byte>, a: nat, c: nat, d: nat)
    requires a <= |s| && c <= d <= |s| - a
    ensures s[a..][c..d] == s[a + c..a + d]
  {
    assert s[a..] == s[a..|s|];
    SliceOfSlice(s, a, |s|, c, d);
  }

  /** What follows a prefix of known length. */
  lemma AfterPrefix(p: seq<byte>, q: seq<byte>)
    ensures (p + q)[|p|..] == q
  {
  }

  /** The two big-endian bytes of a 16-bit value. */
  function BeUint16(v: uint16): (b: seq<byte>)
    ensures |b| == 2 && b[0] as int * 0x100 + b[1] as int == v
  {
    [v / 0x100, v % 0x100]
  }

  /** The big-endian 16-bit value stored at `s[at..at + 2]`. */
  function Uint16At(s: seq<byte>, at: nat): (v: uint16)
    requires at + 2 <= |s|
    ensures BeUint16(v) == s[at..at + 2]
  {
    BeUint8Pair(s[at], s[at + 1]);
    s[at] as int * 0x100 + s[at + 1] as int
  }

  lemma BeUint8Pair(hi: byte, lo: byte)
    ensures 0 <= hi as int * 0x100 + lo as int < 0x1_0000
    ensures (hi as int * 0x100 + lo as int) / 0x100 == hi as int && (hi as int * 0x100 + lo as int) % 0x100 == lo as int
  {
  }

  /** Writing a 16-bit value and reading it back yields the value. */
  lemma Uint16RoundTrip(s: seq<byte>, at: nat, v: uint16)
    requires at + 2 <= |s|
    ensures Uint16At(Overlay(s, at, BeUint16(v)), at) == v
  {
    var t := Overlay(s, at, BeUint16(v));
    assert t[at..at + 2] == BeUint16(v);
  }

  /** Stores `w` into the view that starts at `at`; the caller has made sure it fits. */
  method WriteBytes(a: array<byte>, at: nat, w: seq<byte>)
    requires at + |w| <= a.Length
    modifies a
    ensures a[..] == Overlay(old(a[..]), at, w)
  {
    var i := 0;
    while i < |w|
      invariant 0 <= i <= |w|
      invariant forall k :: 0 <= k < a.Length ==> a[k] == if at <= k < at + i then w[k - at] else old(a[k])
    {
      a[at + i] := w[i];
      i := i + 1;
    }
    OverlayAt(old(a[..]), at, w);
  }

  /** `asio::buffer_copy(view, source)`: copies as many bytes as both the
      view starting at `at` and `source` hold, and returns that count. */
  method BufferCopy(a: array<byte>, at: nat, source: seq<byte>) returns (copied: nat)
    requires at <= a.Length
    modifies a
    ensures copied == Min(a.Length - at, |source|)
    ensures a[..] == Overlay(old(a[..]), at, source[..copied])
  {
    copied := Min(a.Length - at, |source|);
    WriteBytes(a, at, source[..copied]);
  }

  /** `WriteUintBe(view, value)` for a 16-bit value, into a view known to hold two bytes. */
  method WriteUint16Be(a: array<byte>, at: nat, v: uint16)
    requires at + 2 <= a.Length
    modifies a
    ensures a[..] == Overlay(old(a[..]), at, BeUint16(v))
  {
    WriteBytes(a, at, BeUint16(v));
  }
}
