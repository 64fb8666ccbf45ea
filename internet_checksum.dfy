/** The RFC 1071 ones'-complement checksum that the echo responder fills
    into its reply (`InternetChecksum`, `AddBuffer`, `GetChecksum`). Its
    source is not part of this model; it is stated here as RFC 1071
    section 1 describes it: the sum of the big-endian 16-bit words (an odd
    final byte padded with a zero low byte), its carries folded back in,
    then complemented. */
module InternetChecksums {
  import opened Bytes

  const WordModulus: nat := 0xFFFF

  /** The sum of the big-endian 16-bit words of `s`. */
  function WordSum(s: seq<byte>): (sum: nat)
    ensures sum <= 0xFFFF * ((|s| + 1) / 2)
    decreases |s|
  {
    if |s| == 0 then 0
    else if |s| == 1 then s[0] as int * 0x100
    else s[0] as int * 0x100 + s[1] as int + WordSum(s[2..])
  }

  /** End-around carry: adds the high 16 bits into the low 16 bits until no
      carry remains. This keeps the value modulo 0xFFFF and keeps it nonzero. */
  function Fold(n: nat): (r: uint16)
    ensures r % WordModulus == n % WordModulus
    ensures r <= n
    ensures n > 0 ==> r > 0
    decreases n
  {
    if n < 0x1_0000 then n
    else
      CarryStep(n);
      Fold(n / 0x1_0000 + n % 0x1_0000)
  }

  lemma CarryStep(n: nat)
    requires n >= 0x1_0000
    ensures 0 < n / 0x1_0000 + n % 0x1_0000 < n
    ensures (n / 0x1_0000 + n % 0x1_0000) % WordModulus == n % WordModulus
  {
    var q, r := n / 0x1_0000, n % 0x1_0000;
    assert n == WordModulus * q + (q + r);
    ModAddMultiple(q + r, q);
  }

  lemma ModAddMultiple(x: nat, k: nat)
    ensures (WordModulus * k + x) % WordModulus == x % WordModulus
  {
    var y := WordModulus * k + x;
    var d := x / WordModulus;
    assert y == WordModulus * (k + d) + x % WordModulus;
  }

  /** `AddBuffer`: the running accumulator after adding the words of `buffer`. */
  function AddBuffer(accumulator: nat, buffer: seq<byte>): (r: nat)
    ensures accumulator <= r <= accumulator + 0xFFFF * ((|buffer| + 1) / 2)
  {
    accumulator + WordSum(buffer)
  }

  /** `GetChecksum`: the ones' complement of the folded accumulator, so
      that the accumulated sum plus the checksum is 0 modulo 0xFFFF (all
      ones in ones'-complement arithmetic). */
  function GetChecksum(accumulator: nat): (c: uint16)
    ensures (accumulator + c) % WordModulus == 0
    ensures accumulator > 0 ==> c < 0xFFFF
  {
    DifferenceOfCongruent(accumulator, Fold(accumulator));
    0xFFFF - Fold(accumulator)
  }

  /** The checksum of one buffer added to a fresh accumulator. */
  function Checksum(buffer: seq<byte>): (c: uint16)
    ensures (WordSum(buffer) + c) % WordModulus == 0
  {
    GetChecksum(AddBuffer(0, buffer))
  }

  /** The receiver's RFC 1071 test: the folded sum over the segment,
      checksum field included, is all ones. */
  predicate Verifies(segment: seq<byte>)
  {
    Fold(WordSum(segment)) == 0xFFFF
  }

  /** A fresh accumulator fed nothing yields 0xFFFF. */
  lemma EmptyChecksum()
    ensures GetChecksum(0) == 0xFFFF
  {
  }

  /** Feeding a buffer of even length and then another buffer is the same
      as feeding their concatenation. */
  lemma {:induction false} AddBufferConcat(accumulator: nat, a: seq<byte>, b: seq<byte>)
    requires |a| % 2 == 0
    ensures AddBuffer(AddBuffer(accumulator, a), b) == AddBuffer(accumulator, a + b)
    decreases |a|
  {
    if |a| > 0 {
      assert (a + b)[2..] == a[2..] + b;
      AddBufferConcat(accumulator, a[2..], b);
    } else {
      assert a + b == b;
    }
  }

  /** Each `AddBuffer` call pads its own odd final byte, so splitting after
      an odd-length first part changes the result: [1] then [2] sums the
      words 0x0100 and 0x0200, while [1, 2] is the one word 0x0102. */
  lemma OddSplitDiffers()
    ensures AddBuffer(AddBuffer(0, [1]), [2]) == 0x300 && AddBuffer(0, [1, 2]) == 0x102
    ensures GetChecksum(AddBuffer(AddBuffer(0, [1]), [2])) != GetChecksum(AddBuffer(0, [1, 2]))
  {
    assert WordSum([1]) == 0x100;
    assert WordSum([2]) == 0x200;
    assert [1, 2][2..] == [];
    assert WordSum([1, 2]) == 0x102;
  }

  /** The word sum of a concatenation whose first part has even length. */
  lemma WordSumConcat(a: seq<byte>, b: seq<byte>)
    requires |a| % 2 == 0
    ensures WordSum(a + b) == WordSum(a) + WordSum(b)
  {
    AddBufferConcat(0, a, b);
  }

  /** Verifying is the same as the checksum of the whole segment being zero. */
  lemma VerifiesIffZeroChecksum(segment: seq<byte>)
    ensures Verifies(segment) <==> Checksum(segment) == 0
  {
  }

  /** The sum of a segment of at least two words, given its second word. */
  lemma WordSumSecondWord(s: seq<byte>)
    requires |s| >= 4
    ensures WordSum(s) == s[0] as int * 0x100 + s[1] as int + Uint16At(s, 2) + WordSum(s[4..])
  {
    assert s[2..][2..] == s[4..];
  }

  /** RFC 1071: with the checksum field at offset 2 zero, storing the
      checksum of the segment into that field makes the segment verify. */
  lemma StoredChecksumVerifies(segment: seq<byte>)
    requires |segment| >= 4 && segment[2] == 0 && segment[3] == 0
    ensures Verifies(Overlay(segment, 2, BeUint16(Checksum(segment))))
  {
    var c := Checksum(segment);
    StoredWordSum(segment, c);
    FoldOfMultiple(WordSum(segment) + c);
  }

  /** Storing `c` into a zero field at offset 2 adds `c` to the word sum. */
  lemma StoredWordSum(segment: seq<byte>, c: uint16)
    requires |segment| >= 4 && segment[2] == 0 && segment[3] == 0
    ensures WordSum(Overlay(segment, 2, BeUint16(c))) == WordSum(segment) + c
  {
    var t := Overlay(segment, 2, BeUint16(c));
    WordSumSecondWord(segment);
    WordSumSecondWord(t);
    assert t[4..] == segment[4..];
    assert Uint16At(segment, 2) == 0;
    assert t[2..4] == BeUint16(c);
    assert Uint16At(t, 2) == c;
  }

  /** A positive multiple of 0xFFFF folds to all ones. */
  lemma FoldOfMultiple(n: nat)
    requires n > 0 && n % WordModulus == 0
    ensures Fold(n) == 0xFFFF
  {
    var f := Fold(n);
    assert 0 < f <= WordModulus && f % WordModulus == 0;
  }

  lemma DifferenceOfCongruent(x: nat, y: nat)
    requires y <= x && x % WordModulus == y % WordModulus
    ensures (x + (WordModulus - y)) % WordModulus == 0
  {
    var qx, qy := x / WordModulus, y / WordModulus;
    assert x == WordModulus * qx + x % WordModulus;
    assert y == WordModulus * qy + y % WordModulus;
    assert x + (WordModulus - y) == WordModulus * (qx - qy + 1);
    assert qx - qy + 1 >= 0;
    ModAddMultiple(0, qx - qy + 1);
  }
}
