/**
  Enumerating the usable host addresses of a subnet, byte by byte, with wrap-around at the end of the address space.
 */
module Subnet {
  import opened Bytes
  import opened Bits
  import opened Yielding

  /** `p` ones followed by zeros. */
  ghost predicate Canonical(mask: seq<byte>, p: nat) {
    p <= 8 * |mask| && BitsOf(mask) == Repeat(true, p) + Repeat(false, 8 * |mask| - p)
  }

  /** How many addresses a prefix leaves open. */
  function Size(p: nat, n: nat): nat
    requires p <= 8 * n
  {
    Pow2(8 * n - p)
  }

  /** The address has the same network number. For 4-byte addresses this is the test of the program. */
  predicate Contains(ip: seq<byte>, mask: seq<byte>, x: seq<byte>)
    requires |ip| == |mask|
  {
    |x| == |ip| && AndBytes(x, mask) == AndBytes(ip, mask)
  }

  // ---- What the byte-wise operations compute ----

  /** The number that the first `p` digits of an address denote. */
  function Head(ip: seq<byte>, p: nat): nat
    requires p <= 8 * |ip|
  {
    FromBits(BitsOf(ip)[..p])
  }

  /** The byte-wise operations, read as numbers, are the digit-wise ones. */
  lemma DigitWise(ip: seq<byte>, mask: seq<byte>)
    requires |ip| == |mask|
    ensures BigEndian(AndBytes(ip, mask)) == FromBits(AndBits(BitsOf(ip), BitsOf(mask)))
    ensures BigEndian(OrNotBytes(ip, mask)) == FromBits(OrBits(BitsOf(ip), NotBits(BitsOf(mask))))
    ensures BigEndian(ip) == FromBits(BitsOf(ip))
  {
    AndBytesBits(ip, mask);
    OrNotBytesBits(ip, mask);
    BigEndianBits(AndBytes(ip, mask));
    BigEndianBits(OrNotBytes(ip, mask));
    BigEndianBits(ip);
  }

  /**
    Masking gives the multiple of the subnet's size that the address falls to, and OR with the complement gives
    the last address from there on, also when the address has host bits set.
   */
  lemma MaskedValues(ip: seq<byte>, mask: seq<byte>, p: nat)
    requires |ip| == |mask| && Canonical(mask, p)
    ensures BigEndian(AndBytes(ip, mask)) == Shift(Head(ip, p), 8 * |mask| - p)
    ensures BigEndian(AndBytes(ip, mask)) <= BigEndian(ip) < BigEndian(AndBytes(ip, mask)) + Pow2(8 * |mask| - p)
    ensures BigEndian(OrNotBytes(ip, mask)) == BigEndian(AndBytes(ip, mask)) + Pow2(8 * |mask| - p) - 1
  {
    var bits, ones, r: nat := BitsOf(ip), BitsOf(mask), 8 * |mask| - p;
    assert Head(ip, p) == FromBits(bits[..p]) && ones == Repeat(true, p) + Repeat(false, r);
    hide *;
    DigitWise(ip, mask);
    MaskedDigits(bits, ones, p, r);
  }

  /** Digit-wise AND with the mask zeroes the tail; OR with its complement fills it with ones. */
  lemma MaskedDigits(bits: seq<bool>, mask: seq<bool>, p: nat, r: nat)
    requires |bits| == p + r && mask == Repeat(true, p) + Repeat(false, r)
    ensures FromBits(AndBits(bits, mask)) == Shift(FromBits(bits[..p]), r)
    ensures FromBits(OrBits(bits, NotBits(mask))) == Shift(FromBits(bits[..p]), r) + Pow2(r) - 1
    ensures Shift(FromBits(bits[..p]), r) <= FromBits(bits) < Shift(FromBits(bits[..p]), r) + Pow2(r)
  {
    assert AndBits(bits, mask) == bits[..p] + Repeat(false, r);
    assert OrBits(bits, NotBits(mask)) == bits[..p] + Repeat(true, r);
    assert bits == bits[..p] + bits[p..];
    RepeatValue(r);
    FromBitsConcat(bits[..p], Repeat(false, r));
    FromBitsConcat(bits[..p], Repeat(true, r));
    FromBitsConcat(bits[..p], bits[p..]);
  }

  lemma {:induction false} BigEndianInjective(a: seq<byte>, b: seq<byte>)
    requires |a| == |b| && BigEndian(a) == BigEndian(b)
    ensures a == b
  {
    if a != [] {
      var n := |a| - 1;
      BigEndianInjective(a[..n], b[..n]);
      assert a == a[..n] + [a[n]] && b == b[..n] + [b[n]];
    }
  }

  lemma SameNetwork(ip: seq<byte>, mask: seq<byte>, x: seq<byte>)
    requires |ip| == |mask| == |x|
    ensures Contains(ip, mask, x) <==> BigEndian(AndBytes(x, mask)) == BigEndian(AndBytes(ip, mask))
  {
    if BigEndian(AndBytes(x, mask)) == BigEndian(AndBytes(ip, mask)) {
      BigEndianInjective(AndBytes(x, mask), AndBytes(ip, mask));
    }
  }

  /** An address is contained in the subnet exactly when it lies between the network address and the last one. */
  lemma ContainsIsRange(ip: seq<byte>, mask: seq<byte>, p: nat, x: seq<byte>)
    requires |ip| == |mask| == |x| && Canonical(mask, p)
    ensures Contains(ip, mask, x) <==>
            BigEndian(AndBytes(ip, mask)) <= BigEndian(x) < BigEndian(AndBytes(ip, mask)) + Size(p, |mask|)
  {
    var r: nat := 8 * |mask| - p;
    assert Size(p, |ip|) == Pow2(r);
    hide *;
    assert BigEndian(AndBytes(ip, mask)) == Shift(Head(ip, p), r) by {
      MaskedValues(ip, mask, p);
    }
    assert BigEndian(AndBytes(x, mask)) == Shift(Head(x, p), r) <= BigEndian(x) < Shift(Head(x, p), r) + Pow2(r) by {
      MaskedValues(x, mask, p);
    }
    SameShift(Head(ip, p), Head(x, p), r, BigEndian(x));
    SameNetwork(ip, mask, x);
  }

  /** A number lies in the block that starts at one shifted number exactly when that is its own block. */
  lemma SameShift(q: nat, own: nat, r: nat, x: nat)
    requires Shift(own, r) <= x < Shift(own, r) + Pow2(r)
    ensures Shift(q, r) <= x < Shift(q, r) + Pow2(r) <==> Shift(own, r) == Shift(q, r)
  {
    if q < own {
      ShiftApart(q, own, r);
    } else if own < q {
      ShiftApart(own, q, r);
    }
  }

  lemma {:induction false} PowersAgree(n: nat)
    ensures Pow256(n) == Pow2(8 * n)
  {
    if n > 0 {
      PowersAgree(n - 1);
      Pow2Sum(8, 8 * (n - 1));
      assert Pow2(8) == 256;
    }
  }

  lemma {:induction false} Pow2Sum(a: nat, b: nat)
    ensures Pow2(a + b) == Pow2(a) * Pow2(b)
  {
    if a > 0 {
      Pow2Sum(a - 1, b);
      assert Pow2(a) * Pow2(b) == 2 * (Pow2(a - 1) * Pow2(b));
    }
  }

  // ---- The successor of an address ----

  /** Adds one to the last byte, and carries while a byte wraps to zero. */
  function Increment(b: seq<byte>): (r: seq<byte>)
    ensures |r| == |b|
  {
    if b == [] then []
    else if b[|b| - 1] == 255 then Increment(b[..|b| - 1]) + [0]
    else b[|b| - 1 := b[|b| - 1] + 1]
  }

  /** Read big-endian, the successor is plus one modulo the size of the address space, for any number of bytes. */
  lemma {:induction false} IncrementIsSuccessor(b: seq<byte>)
    ensures BigEndian(Increment(b)) == if BigEndian(b) + 1 == Pow256(|b|) then 0 else BigEndian(b) + 1
  {
    if b != [] {
      var n := |b| - 1;
      IncrementIsSuccessor(b[..n]);
      if b[n] == 255 {
        assert (Increment(b[..n]) + [0])[..n] == Increment(b[..n]);
      } else {
        assert Increment(b)[..n] == b[..n];
      }
    }
  }

  /** The carry runs through the trailing full bytes and stops at the byte before them. */
  lemma {:induction false} IncrementCarry(b: seq<byte>, i: int, r: seq<byte>)
    requires -1 <= i < |b| == |r|
    requires forall k | i < k < |b| :: b[k] == 255 && r[k] == 0
    requires forall k | 0 <= k < i :: r[k] == b[k]
    requires i >= 0 ==> b[i] != 255 && r[i] == b[i] + 1
    ensures Increment(b) == r
  {
    if b != [] {
      var n := |b| - 1;
      if i < n {
        IncrementCarry(b[..n], i, r[..n]);
        assert r == r[..n] + [0];
      }
    }
  }

  method CloneIP(ip: array<byte>) returns (dup: array<byte>)
    ensures fresh(dup) && dup[..] == ip[..]
  {
    dup := new byte[ip.Length](i requires 0 <= i < ip.Length reads ip => ip[i]);
  }

  method NextIP(ip: array<byte>) returns (next: array<byte>)
    ensures fresh(next) && next[..] == Increment(ip[..])
  {
    next := CloneIP(ip);
    var i := next.Length - 1;
    while i >= 0
      invariant -1 <= i < next.Length
      invariant forall k | 0 <= k <= i :: next[k] == ip[k]
      invariant forall k | i < k < next.Length :: ip[k] == 255 && next[k] == 0
    {
      next[i] := if next[i] == 255 then 0 else next[i] + 1;
      if next[i] != 0 {
        break;
      }
      i := i - 1;
    }
    IncrementCarry(ip[..], i, next[..]);
  }

  /** Compares with the address that has every open bit set. */
  method IsBroadcast(ip: array<byte>, subnetIP: array<byte>, mask: array<byte>) returns (r: bool)
    requires subnetIP.Length == mask.Length
    ensures r <==> ip[..] == OrNotBytes(subnetIP[..], mask[..])
  {
    var broadcast := new byte[subnetIP.Length];
    for i := 0 to subnetIP.Length
      invariant broadcast[..i] == OrNotBytes(subnetIP[..i], mask[..i])
    {
      assert subnetIP[..i + 1][..i] == subnetIP[..i] && mask[..i + 1][..i] == mask[..i];
      broadcast[i] := Or(subnetIP[i], Not(mask[i]));
    }
    assert broadcast[..] == broadcast[..subnetIP.Length];
    assert subnetIP[..] == subnetIP[..subnetIP.Length] && mask[..] == mask[..subnetIP.Length];
    r := ip[..] == broadcast[..];
  }

  /** The byte-wise AND of an address and a mask, as a new address. */
  method MaskIP(ip: array<byte>, mask: array<byte>) returns (masked: array<byte>)
    requires ip.Length == mask.Length
    ensures fresh(masked) && masked[..] == AndBytes(ip[..], mask[..])
  {
    masked := new byte[ip.Length];
    for i := 0 to ip.Length
      invariant masked[..i] == AndBytes(ip[..i], mask[..i])
    {
      assert ip[..i + 1][..i] == ip[..i] && mask[..i + 1][..i] == mask[..i];
      masked[i] := And(ip[i], mask[i]);
    }
    assert masked[..] == masked[..ip.Length];
    assert ip[..] == ip[..ip.Length] && mask[..] == mask[..ip.Length];
  }

  // ---- The enumeration ----

  /** How many usable hosts a prefix leaves: all addresses but the first and the last. */
  function HostCount(p: nat, n: nat): nat
    requires p <= 8 * n
  {
    if Size(p, n) < 2 then 0 else Size(p, n) - 2
  }

  /** The network address as a number. */
  ghost function Base(ip: seq<byte>, mask: seq<byte>): nat
    requires |ip| == |mask|
  {
    BigEndian(AndBytes(ip, mask))
  }

  /** The given addresses are the first ones strictly between network and broadcast, in ascending order. */
  ghost predicate FirstHosts(n: nat, base: nat, hosts: seq<seq<byte>>) {
    forall i | 0 <= i < |hosts| :: |hosts[i]| == n && BigEndian(hosts[i]) == base + 1 + i
  }

  lemma NextHost(n: nat, base: nat, hosts: seq<seq<byte>>, host: seq<byte>)
    requires FirstHosts(n, base, hosts) && |host| == n && BigEndian(host) == base + 1 + |hosts|
    ensures FirstHosts(n, base, hosts + [host])
  {
  }

  /** Where the enumeration stands: on the next host, on the broadcast address after all of them, or outside. */
  ghost predicate Standing(base: nat, size: nat, x: nat, yielded: nat) {
    if base <= x < base + size
    then x == base + 1 + yielded && yielded + 1 < size
    else yielded == if size < 2 then 0 else size - 2
  }

  lemma SizeBelowSpace(p: nat, n: nat)
    requires p <= 8 * n
    ensures Size(p, n) <= Pow256(n)
    ensures p >= 1 <==> Size(p, n) < Pow256(n)
  {
    PowersAgree(n);
    Pow2Sum(p, 8 * n - p);
    if p >= 1 {
      assert Pow2(p) == 2 * Pow2(p - 1);
      Doubles(Pow2(p - 1), Size(p, n));
    }
  }

  lemma Doubles(a: nat, b: nat)
    requires a > 0
    ensures 2 * a * b >= 2 * b
  {
    MulAtLeast(2 * a, 2, b);
  }

  lemma MulAtLeast(i: nat, j: nat, b: nat)
    requires i >= j
    ensures i * b >= j * b
  {
  }

  lemma StandingAtStart(ip: seq<byte>, mask: seq<byte>, p: nat)
    requires |ip| == |mask| && Canonical(mask, p) && p >= 1
    ensures Standing(Base(ip, mask), Size(p, |ip|), BigEndian(Increment(AndBytes(ip, mask))), 0)
  {
    SizeBelowSpace(p, |ip|);
    MaskedValues(ip, mask, p);
    IncrementIsSuccessor(AndBytes(ip, mask));
  }

  /**
    A step from a host yields it; a step from the broadcast address
    yields nothing and leaves the subnet, even when it wraps to zero.
   */
  lemma StandingStep(ip: seq<byte>, mask: seq<byte>, p: nat, x: seq<byte>, yielded: nat)
    requires |ip| == |mask| == |x| && Canonical(mask, p) && p >= 1
    requires Standing(Base(ip, mask), Size(p, |ip|), BigEndian(x), yielded)
    requires BigEndian(x) < Base(ip, mask) + Size(p, |ip|) && Base(ip, mask) <= BigEndian(x)
    ensures
      var last := Base(ip, mask) + Size(p, |ip|) - 1;
      && (x == OrNotBytes(ip, mask) <==> BigEndian(x) == last)
      && Standing(Base(ip, mask), Size(p, |ip|), BigEndian(Increment(x)),
                  if BigEndian(x) == last then yielded else yielded + 1)
      && (BigEndian(x) < last ==> BigEndian(Increment(x)) == BigEndian(x) + 1)
      && (BigEndian(x) == last ==> !(Base(ip, mask) <= BigEndian(Increment(x)) <= last))
  {
    SizeBelowSpace(p, |ip|);
    MaskedValues(ip, mask, p);
    IncrementIsSuccessor(x);
    if BigEndian(x) == BigEndian(OrNotBytes(ip, mask)) {
      BigEndianInjective(x, OrNotBytes(ip, mask));
    }
  }

  /** The subnet's containment test, read as a range. */
  method InSubnet(subnetIP: array<byte>, mask: array<byte>, ip: array<byte>, ghost p: nat) returns (r: bool)
    requires subnetIP.Length == mask.Length == ip.Length && Canonical(mask[..], p)
    ensures r <==> Base(subnetIP[..], mask[..]) <= BigEndian(ip[..]) < Base(subnetIP[..], mask[..]) + Size(p, ip.Length)
  {
    ContainsIsRange(subnetIP[..], mask[..], p, ip[..]);
    r := Contains(subnetIP[..], mask[..], ip[..]);
  }

  /** Hands a fresh copy of the address to the consumer, which may write over it. */
  method Yield(ip: array<byte>, turn: nat, scribble: (nat, nat) -> byte) returns (given: seq<byte>)
    ensures given == ip[..]
  {
    var host := CloneIP(ip);
    given := host[..];
    forall i | 0 <= i < host.Length {
      host[i] := scribble(turn, i);
    }
  }

  /**
    Yields the usable hosts to a consumer. `stop` tells at which turn the consumer breaks off, and `scribble` what
    it writes over each address that it was given; neither disturbs the enumeration.
   */
  method SubnetHosts(subnetIP: array<byte>, mask: array<byte>, ghost p: nat, stop: nat -> bool,
                     scribble: (nat, nat) -> byte)
    returns (hosts: seq<seq<byte>>)
    requires subnetIP.Length == mask.Length && Canonical(mask[..], p) && p >= 1
    ensures FirstHosts(subnetIP.Length, Base(subnetIP[..], mask[..]), hosts)
    ensures |hosts| <= HostCount(p, subnetIP.Length)
    ensures hosts != [] ==> GoesOn(stop, |hosts| - 1)
    ensures |hosts| < HostCount(p, subnetIP.Length) ==> hosts != [] && stop(|hosts| - 1)
  {
    hide BigEndian, Increment, AndBytes, OrNotBytes, Base, Pow2;
    hosts := [];
    ghost var net, bits := subnetIP[..], mask[..];
    ghost var base, size := Base(net, bits), Size(p, |net|);
    var start := MaskIP(subnetIP, mask);
    var ip := NextIP(start);
    StandingAtStart(net, bits, p);
    var inside := InSubnet(subnetIP, mask, ip, p);
    while inside
      invariant ip.Length == |net| && Standing(base, size, BigEndian(ip[..]), |hosts|)
      invariant inside <==> base <= BigEndian(ip[..]) < base + size
      invariant FirstHosts(|net|, base, hosts)
      invariant GoesOn(stop, |hosts|)
      decreases if inside then base + size - BigEndian(ip[..]) else 0
    {
      StandingStep(net, bits, p, ip[..], |hosts|);
      var broadcast := IsBroadcast(ip, subnetIP, mask);
      if !broadcast {
        var given := Yield(ip, |hosts|, scribble);
        NextHost(|net|, base, hosts, given);
        GoesOnLonger(stop, |hosts|);
        hosts := hosts + [given];
        if stop(|hosts| - 1) {
          return;
        }
      }
      ip := NextIP(ip);
      inside := InSubnet(subnetIP, mask, ip, p);
    }
  }

  /** Without a prefix the loop has no end: every address is inside, its successor too. */
  lemma NoPrefixNeverLeaves(ip: seq<byte>, mask: seq<byte>, x: seq<byte>)
    requires |ip| == |mask| == |x| && Canonical(mask, 0)
    ensures Contains(ip, mask, x)
  {
    SizeBelowSpace(0, |ip|);
    MaskedValues(ip, mask, 0);
    ContainsIsRange(ip, mask, 0, x);
  }

  /** The address after the broadcast address is outside the subnet exactly when there is a prefix. */
  lemma LeavesExactly(ip: seq<byte>, mask: seq<byte>, p: nat)
    requires |ip| == |mask| && Canonical(mask, p)
    ensures !Contains(ip, mask, Increment(OrNotBytes(ip, mask))) <==> p >= 1
  {
    var after := Increment(OrNotBytes(ip, mask));
    SizeBelowSpace(p, |ip|);
    MaskedValues(ip, mask, p);
    IncrementIsSuccessor(OrNotBytes(ip, mask));
    ContainsIsRange(ip, mask, p, after);
  }
}
