/** Bytes, and little-endian integers as memory copies of them. */
module ByteCodec {

  type byte = b: int | 0 <= b < 256

  type Bytes = seq<byte>

  function Pow256(k: nat): (p: nat)
    ensures p >= 1
  {
    if k == 0 then 1 else 256 * Pow256(k - 1)
  }

  /** The low k bytes of n, least significant first. */
  function LittleEndian(n: nat, k: nat): (bs: Bytes)
    ensures |bs| == k
  {
    if k == 0 then [] else [n % 256] + LittleEndian(n / 256, k - 1)
  }

  function FromLittleEndian(bs: Bytes): (n: nat) {
    if bs == [] then 0 else bs[0] + 256 * FromLittleEndian(bs[1..])
  }

  /** A number that fits in k bytes is read back from them. */
  lemma {:induction false} LittleEndianRoundTrip(n: nat, k: nat)
    requires n < Pow256(k)
    ensures FromLittleEndian(LittleEndian(n, k)) == n
  {
    if k > 0 {
      LittleEndianRoundTrip(n / 256, k - 1);
      assert LittleEndian(n, k)[1..] == LittleEndian(n / 256, k - 1);
    }
  }

  type int32 = x: int | -0x8000_0000 <= x < 0x8000_0000

  /** Two's complement in four bytes. */
  function EncodeInt32(x: int32): (bs: Bytes)
    ensures |bs| == 4
  {
    LittleEndian(if x < 0 then x + 0x1_0000_0000 else x, 4)
  }

  /** The least significant byte comes first, and a negative number is its complement. */
  lemma {:induction false} Int32Bytes(x: int)
    requires 0 <= x < 256
    ensures EncodeInt32(x) == [x, 0, 0, 0] && EncodeInt32(256 * x) == [0, x, 0, 0]
    ensures x > 0 ==> EncodeInt32(-x) == [256 - x, 255, 255, 255]
  {
    FourBytes(x);
    FourBytes(256 * x);
    if x > 0 { FourBytes(0x1_0000_0000 - x); }
  }

  lemma FourBytes(n: nat)
    ensures LittleEndian(n, 4) == [n % 256, n / 256 % 256, n / 256 / 256 % 256, n / 256 / 256 / 256 % 256]
  {
    var a, b, c := n / 256, n / 256 / 256, n / 256 / 256 / 256;
    assert LittleEndian(c, 1) == [c % 256] + LittleEndian(c / 256, 0);
    assert LittleEndian(b, 2) == [b % 256] + LittleEndian(c, 1);
    assert LittleEndian(a, 3) == [a % 256] + LittleEndian(b, 2);
  }

  function DecodeInt32(bs: Bytes): (x: int32)
    requires |bs| == 4
  {
    Bounded(bs);
    var n := FromLittleEndian(bs);
    if n >= 0x8000_0000 then n - 0x1_0000_0000 else n
  }

  lemma {:induction false} Bounded(bs: Bytes)
    ensures FromLittleEndian(bs) < Pow256(|bs|)
  {
    if bs != [] {
      Bounded(bs[1..]);
    }
  }

  lemma {:induction false} Int32RoundTrip(x: int32)
    ensures DecodeInt32(EncodeInt32(x)) == x
  {
    assert Pow256(4) == 0x1_0000_0000 by {
      assert Pow256(2) == 65536;
      assert Pow256(3) == 16777216;
    }
    LittleEndianRoundTrip(if x < 0 then x + 0x1_0000_0000 else x, 4);
  }

  /** The bytes with those from `at` on overwritten. */
  function Splice(s: Bytes, at: nat, bs: Bytes): (r: Bytes)
    requires at + |bs| <= |s|
    ensures |r| == |s| && r[at..at + |bs|] == bs
    ensures forall i | 0 <= i < |s| && !(at <= i < at + |bs|) :: r[i] == s[i]
  {
    s[..at] + bs + s[at + |bs|..]
  }

  lemma {:induction false} SpliceTwice(s: Bytes, at: nat, a: Bytes, b: Bytes)
    requires at + |a| + |b| <= |s|
    ensures Splice(Splice(s, at, a), at + |a|, b) == Splice(s, at, a + b)
  {
  }

  /** Copies bytes into a buffer. */
  method Copy(buffer: array<byte>, at: nat, bs: Bytes)
    requires at + |bs| <= buffer.Length
    modifies buffer
    ensures buffer[..] == Splice(old(buffer[..]), at, bs)
  {
    for i := 0 to |bs|
      invariant forall j | 0 <= j < i :: buffer[at + j] == bs[j]
      invariant forall j | 0 <= j < buffer.Length && !(at <= j < at + i) :: buffer[j] == old(buffer[j])
    {
      buffer[at + i] := bs[i];
    }
  }
}
