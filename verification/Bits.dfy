/** Numbers and bytes as binary digits, most significant first, and the bitwise operations on them. */
module Bits {
  import opened Bytes

  function Pow2(n: nat): (p: nat)
    ensures p > 0
  {
    if n == 0 then 1 else 2 * Pow2(n - 1)
  }

  function FromBits(bits: seq<bool>): (x: nat)
    ensures x < Pow2(|bits|)
  {
    if bits == [] then 0
    else 2 * FromBits(bits[..|bits| - 1]) + if bits[|bits| - 1] then 1 else 0
  }

  function ToBits(x: nat, w: nat): (bits: seq<bool>)
    ensures |bits| == w
    decreases w, x
  {
    if w == 0 then [] else ToBits(x / 2, w - 1) + [x % 2 == 1]
  }

  lemma {:induction false} FromToBits(x: nat, w: nat)
    requires x < Pow2(w)
    ensures FromBits(ToBits(x, w)) == x
  {
    if w > 0 {
      FromToBits(x / 2, w - 1);
      assert ToBits(x, w)[..w - 1] == ToBits(x / 2, w - 1);
    }
  }

  lemma {:induction false} ToFromBits(bits: seq<bool>)
    ensures ToBits(FromBits(bits), |bits|) == bits
  {
    if bits != [] {
      ToFromBits(bits[..|bits| - 1]);
      assert FromBits(bits) / 2 == FromBits(bits[..|bits| - 1]);
    }
  }

  /** `q` with `r` zeros appended. */
  function Shift(q: nat, r: nat): nat {
    if r == 0 then q else 2 * Shift(q, r - 1)
  }

  lemma {:induction false} FromBitsConcat(a: seq<bool>, b: seq<bool>)
    ensures FromBits(a + b) == Shift(FromBits(a), |b|) + FromBits(b)
  {
    if b == [] {
      assert a + b == a;
    } else {
      FromBitsConcat(a, b[..|b| - 1]);
      assert (a + b)[..|a + b| - 1] == a + b[..|b| - 1];
    }
  }

  /** Shifted numbers lie a power of two apart. */
  lemma {:induction false} ShiftApart(q: nat, q': nat, r: nat)
    requires q < q'
    ensures Shift(q, r) + Pow2(r) <= Shift(q', r)
  {
    if r > 0 {
      ShiftApart(q, q', r - 1);
    }
  }

  function Repeat(bit: bool, n: nat): (bits: seq<bool>)
    ensures |bits| == n && forall i | 0 <= i < n :: bits[i] == bit
  {
    seq(n, _ => bit)
  }

  lemma {:induction false} RepeatValue(n: nat)
    ensures FromBits(Repeat(false, n)) == 0
    ensures FromBits(Repeat(true, n)) == Pow2(n) - 1
  {
    if n > 0 {
      RepeatValue(n - 1);
      assert Repeat(false, n)[..n - 1] == Repeat(false, n - 1);
      assert Repeat(true, n)[..n - 1] == Repeat(true, n - 1);
    }
  }

  function AndBits(a: seq<bool>, b: seq<bool>): (r: seq<bool>)
    requires |a| == |b|
    ensures |r| == |a| && forall i | 0 <= i < |a| :: r[i] == (a[i] && b[i])
  {
    seq(|a|, i requires 0 <= i < |a| => a[i] && b[i])
  }

  function OrBits(a: seq<bool>, b: seq<bool>): (r: seq<bool>)
    requires |a| == |b|
    ensures |r| == |a| && forall i | 0 <= i < |a| :: r[i] == (a[i] || b[i])
  {
    seq(|a|, i requires 0 <= i < |a| => a[i] || b[i])
  }

  function NotBits(a: seq<bool>): (r: seq<bool>)
    ensures |r| == |a| && forall i | 0 <= i < |a| :: r[i] == !a[i]
  {
    seq(|a|, i requires 0 <= i < |a| => !a[i])
  }

  // ---- Bytes ----

  function ByteOf(bits: seq<bool>): byte
    requires |bits| == 8
  {
    assert Pow2(8) == 256;
    FromBits(bits) as byte
  }

  function BitsOfByte(b: byte): (bits: seq<bool>)
    ensures |bits| == 8
  {
    ToBits(b as nat, 8)
  }

  function And(a: byte, b: byte): byte {
    ByteOf(AndBits(BitsOfByte(a), BitsOfByte(b)))
  }

  function Or(a: byte, b: byte): byte {
    ByteOf(OrBits(BitsOfByte(a), BitsOfByte(b)))
  }

  function Not(a: byte): byte {
    ByteOf(NotBits(BitsOfByte(a)))
  }

  lemma ByteRoundTrip(bits: seq<bool>, b: byte)
    requires |bits| == 8
    ensures BitsOfByte(ByteOf(bits)) == bits
    ensures ByteOf(BitsOfByte(b)) == b
  {
    ToFromBits(bits);
    assert Pow2(8) == 256;
    FromToBits(b as nat, 8);
  }

  // ---- Byte strings ----

  function BitsOf(b: seq<byte>): (bits: seq<bool>)
    ensures |bits| == 8 * |b|
  {
    if b == [] then [] else BitsOf(b[..|b| - 1]) + BitsOfByte(b[|b| - 1])
  }

  function AndBytes(a: seq<byte>, b: seq<byte>): (r: seq<byte>)
    requires |a| == |b|
    ensures |r| == |a|
  {
    if a == [] then []
    else AndBytes(a[..|a| - 1], b[..|b| - 1]) + [And(a[|a| - 1], b[|b| - 1])]
  }

  function OrNotBytes(a: seq<byte>, b: seq<byte>): (r: seq<byte>)
    requires |a| == |b|
    ensures |r| == |a|
  {
    if a == [] then []
    else OrNotBytes(a[..|a| - 1], b[..|b| - 1]) + [Or(a[|a| - 1], Not(b[|b| - 1]))]
  }

  lemma ByteValue(b: byte)
    ensures FromBits(BitsOfByte(b)) == b as nat
  {
    assert Pow2(8) == 256;
    FromToBits(b as nat, 8);
  }

  lemma ShiftByByte(q: nat)
    ensures Shift(q, 8) == 256 * q
  {
    assert Shift(q, 1) == 2 * q;
    assert Shift(q, 3) == 8 * q;
    assert Shift(q, 5) == 32 * q;
    assert Shift(q, 7) == 128 * q;
  }

  /** The big-endian reading of bytes is the reading of all their digits. */
  lemma {:induction false} BigEndianBits(b: seq<byte>)
    ensures FromBits(BitsOf(b)) == BigEndian(b)
  {
    if b != [] {
      var n := |b| - 1;
      BigEndianBits(b[..n]);
      FromBitsConcat(BitsOf(b[..n]), BitsOfByte(b[n]));
      ByteValue(b[n]);
      ShiftByByte(BigEndian(b[..n]));
    }
  }

  /** Byte-wise AND is digit-wise AND. */
  lemma {:induction false} AndBytesBits(a: seq<byte>, b: seq<byte>)
    requires |a| == |b|
    ensures BitsOf(AndBytes(a, b)) == AndBits(BitsOf(a), BitsOf(b))
  {
    if a != [] {
      var n := |a| - 1;
      AndBytesBits(a[..n], b[..n]);
      assert AndBytes(a, b)[..n] == AndBytes(a[..n], b[..n]);
      ByteRoundTrip(AndBits(BitsOfByte(a[n]), BitsOfByte(b[n])), 0);
      AndBitsConcat(BitsOf(a[..n]), BitsOf(b[..n]), BitsOfByte(a[n]), BitsOfByte(b[n]));
    }
  }

  lemma AndBitsConcat(a: seq<bool>, b: seq<bool>, c: seq<bool>, d: seq<bool>)
    requires |a| == |b| && |c| == |d|
    ensures AndBits(a + c, b + d) == AndBits(a, b) + AndBits(c, d)
  {
  }

  /** Byte-wise OR with the complement is digit-wise OR with the complement. */
  lemma {:induction false} OrNotBytesBits(a: seq<byte>, b: seq<byte>)
    requires |a| == |b|
    ensures BitsOf(OrNotBytes(a, b)) == OrBits(BitsOf(a), NotBits(BitsOf(b)))
  {
    if a != [] {
      var n := |a| - 1;
      OrNotBytesBits(a[..n], b[..n]);
      assert OrNotBytes(a, b)[..n] == OrNotBytes(a[..n], b[..n]);
      ByteRoundTrip(NotBits(BitsOfByte(b[n])), 0);
      ByteRoundTrip(OrBits(BitsOfByte(a[n]), NotBits(BitsOfByte(b[n]))), 0);
      OrNotBitsConcat(BitsOf(a[..n]), BitsOf(b[..n]), BitsOfByte(a[n]), BitsOfByte(b[n]));
    }
  }

  lemma OrNotBitsConcat(a: seq<bool>, b: seq<bool>, c: seq<bool>, d: seq<bool>)
    requires |a| == |b| && |c| == |d|
    ensures OrBits(a + c, NotBits(b + d)) == OrBits(a, NotBits(b)) + OrBits(c, NotBits(d))
  {
  }
}
