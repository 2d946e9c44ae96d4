/** IP networks given as an address and a prefix length, stored as the range of their addresses. */
module NetworkModel {
  import opened Wrappers

  /** Eight bits, as a mask sees them. */
  type Octet = bv8

  /** An address in network byte order. */
  datatype Address = V4(bytes: seq<Octet>) | V6(bytes: seq<Octet>)

  datatype Network = Network(min: Address, max: Address)

  ghost predicate WellFormed(a: Address) {
    |a.bytes| == Size(a)
  }

  function Size(a: Address): nat {
    if a.V4? then 4 else 16
  }

  // ---------------------------------------------------------------- order

  /** Bytes are compared from the first one on. */
  predicate BytesLeq(x: seq<Octet>, y: seq<Octet>)
    requires |x| == |y|
  {
    x == [] || x[0] < y[0] || (x[0] == y[0] && BytesLeq(x[1..], y[1..]))
  }

  /** Every IPv4 address comes before every IPv6 address. */
  predicate Leq(a: Address, b: Address)
    requires WellFormed(a) && WellFormed(b)
  {
    if a.V4? == b.V4? then BytesLeq(a.bytes, b.bytes) else a.V4?
  }

  predicate DoesContain(n: Network, a: Address)
    requires WellFormed(n.min) && WellFormed(n.max) && WellFormed(a)
  {
    Leq(n.min, a) && Leq(a, n.max)
  }

  // ---------------------------------------------------------------- masks

  /** A byte whose first c bits are set. */
  function MaskByte(c: nat): Octet
    requires c <= 8
  {
    match c
    case 0 => 0
    case 1 => 0x80
    case 2 => 0xC0
    case 3 => 0xE0
    case 4 => 0xF0
    case 5 => 0xF8
    case 6 => 0xFC
    case 7 => 0xFE
    case _ => 0xFF
  }

  /** How many of the first n bits fall into byte k. */
  function BitsIn(n: nat, k: nat): (c: nat)
    ensures c <= 8
  {
    if n <= 8 * k then 0 else if n >= 8 * k + 8 then 8 else n - 8 * k
  }

  function Mask(n: nat, size: nat): (m: seq<Octet>)
    ensures |m| == size && forall k :: 0 <= k < size ==> m[k] == MaskByte(BitsIn(n, k))
  {
    seq(size, k requires k >= 0 => MaskByte(BitsIn(n, k)))
  }

  lemma NextMaskByte(c: nat)
    requires c < 8
    ensures MaskByte(c + 1) == MaskByte(c) | ((1 as Octet) << (7 - c))
  {
    if c == 0 {
      assert (1 as Octet) << 7 == 0x80;
    } else if c == 1 {
      assert (1 as Octet) << 6 == 0x40;
    } else if c == 2 {
      assert (1 as Octet) << 5 == 0x20;
    } else if c == 3 {
      assert (1 as Octet) << 4 == 0x10;
    } else if c == 4 {
      assert (1 as Octet) << 3 == 0x08;
    } else if c == 5 {
      assert (1 as Octet) << 2 == 0x04;
    } else if c == 6 {
      assert (1 as Octet) << 1 == 0x02;
    } else {
      assert (1 as Octet) << 0 == 0x01;
    }
  }

  method MakeMask(n: nat, maskBytes: array<Octet>)
    requires n <= 8 * maskBytes.Length
    requires forall k :: 0 <= k < maskBytes.Length ==> maskBytes[k] == 0
    modifies maskBytes
    ensures maskBytes[..] == Mask(n, maskBytes.Length)
  {
    var i := 0;
    while i < n
      invariant 0 <= i <= n
      invariant forall k :: 0 <= k < maskBytes.Length ==> maskBytes[k] == MaskByte(BitsIn(i, k))
    {
      var byteId := i / 8;
      var bitIndex := 7 - i % 8;
      NextMaskByte(i % 8);
      NextBitsIn(i);
      maskBytes[byteId] := maskBytes[byteId] | ((1 as Octet) << bitIndex);
      i := i + 1;
    }
  }

  lemma NextBitsIn(i: nat)
    ensures BitsIn(i, i / 8) == i % 8 && BitsIn(i + 1, i / 8) == i % 8 + 1
    ensures forall k: nat :: k != i / 8 ==> BitsIn(i + 1, k) == BitsIn(i, k)
  {
  }

  // ---------------------------------------------------------------- range

  /** The bits under the mask. */
  function Keep(x: Octet, m: Octet): Octet {
    x & m
  }

  /** All bits outside the mask set. */
  function Fill(x: Octet, m: Octet): Octet {
    x | !m
  }

  ghost predicate IsRange(a: seq<Octet>, m: seq<Octet>, min: seq<Octet>, max: seq<Octet>) {
    && |a| == |m| == |min| == |max|
    && forall k :: 0 <= k < |a| ==> min[k] == Keep(a[k], m[k]) && max[k] == Fill(a[k], m[k])
  }

  /** The smallest and the largest address whose first n bits are those of the given one. */
  method Range(bytes: seq<Octet>, n: nat) returns (min: seq<Octet>, max: seq<Octet>)
    requires n <= 8 * |bytes|
    ensures IsRange(bytes, Mask(n, |bytes|), min, max)
  {
    hide Keep, Fill, Mask, MaskByte;
    var maskBytes := new Octet[|bytes|](i => 0);
    MakeMask(n, maskBytes);
    ghost var m := Mask(n, |bytes|);
    var lo := new Octet[|bytes|];
    var hi := new Octet[|bytes|];
    var i := 0;
    while i < |bytes|
      invariant 0 <= i <= |bytes|
      invariant maskBytes[..] == m
      invariant forall k :: 0 <= k < i ==> lo[k] == Keep(bytes[k], m[k]) && hi[k] == Fill(bytes[k], m[k])
    {
      assert maskBytes[i] == maskBytes[..][i];
      lo[i] := Keep(bytes[i], maskBytes[i]);
      hi[i] := Fill(bytes[i], maskBytes[i]);
      i := i + 1;
    }
    min, max := lo[..], hi[..];
  }

  /** A network from an address and a prefix length, unless the prefix is too long. */
  method MakeNetwork(a: Address, n: nat) returns (r: Option<Network>)
    requires WellFormed(a)
    ensures r.None? <==> n > 8 * Size(a)
    ensures r.Some? ==> IsNetwork(r.value, a, n)
  {
    if a.V4? {
      if n > 32 {
        return None;
      }
      var min, max := Range(a.bytes, n);
      return Some(Network(V4(min), V4(max)));
    } else {
      if n > 128 {
        return None;
      }
      var min, max := Range(a.bytes, n);
      return Some(Network(V6(min), V6(max)));
    }
  }

  ghost predicate IsNetwork(net: Network, a: Address, n: nat) {
    && WellFormed(a) && n <= 8 * Size(a)
    && net.min.V4? == a.V4? && net.max.V4? == a.V4?
    && IsRange(a.bytes, Mask(n, Size(a)), net.min.bytes, net.max.bytes)
  }

  // ---------------------------------------------------------------- bits

  /** Bit j of a byte, the most significant first. */
  predicate Bit(b: Octet, j: nat)
    requires j < 8
  {
    match j
    case 0 => b & 0x80 != 0
    case 1 => b & 0x40 != 0
    case 2 => b & 0x20 != 0
    case 3 => b & 0x10 != 0
    case 4 => b & 0x08 != 0
    case 5 => b & 0x04 != 0
    case 6 => b & 0x02 != 0
    case _ => b & 0x01 != 0
  }

  predicate BitAt(x: seq<Octet>, i: nat)
    requires i < 8 * |x|
  {
    Bit(x[i / 8], i % 8)
  }

  /** The first n bits are the same. */
  ghost predicate SamePrefix(x: seq<Octet>, y: seq<Octet>, n: nat)
    requires |x| == |y| && n <= 8 * |x|
  {
    forall i :: 0 <= i < n ==> BitAt(x, i) == BitAt(y, i)
  }

  ghost predicate SameFirst(x: Octet, y: Octet, c: nat)
    requires c <= 8
  {
    forall j :: 0 <= j < c ==> Bit(x, j) == Bit(y, j)
  }

  lemma {:induction false} SameBits(x: Octet, y: Octet, c: nat)
    requires c <= 8
    ensures Keep(x, MaskByte(c)) == Keep(y, MaskByte(c)) <==> SameFirst(x, y, c)
  {
    hide Keep, MaskByte, Bit;
    if c == 0 {
      NoBits(x, y);
    } else {
      SameBits(x, y, c - 1);
      OneMoreBit(x, y, c - 1);
    }
  }

  lemma NoBits(x: Octet, y: Octet)
    ensures Keep(x, MaskByte(0)) == Keep(y, MaskByte(0)) == 0
    ensures Fill(x, MaskByte(0)) == 0xFF
  {
  }

  lemma AllBits(x: Octet)
    ensures Keep(x, MaskByte(8)) == x == Fill(x, MaskByte(8))
  {
  }

  lemma OneMoreBit(x: Octet, y: Octet, c: nat)
    requires c < 8
    ensures Keep(x, MaskByte(c + 1)) == Keep(y, MaskByte(c + 1)) <==> Keep(x, MaskByte(c)) == Keep(y, MaskByte(c)) && Bit(x, c) == Bit(y, c)
  {
  }

  /** Comparing under the mask is comparing the prefix. */
  lemma SamePrefixIsMasked(x: seq<Octet>, y: seq<Octet>, n: nat)
    requires |x| == |y| && n <= 8 * |x|
    ensures SamePrefix(x, y, n) <==> Masked(x, y, Mask(n, |x|))
  {
    hide Mask, MaskByte, Keep, Bit, BitsIn;
    forall k | 0 <= k < |x| ensures Keep(x[k], Mask(n, |x|)[k]) == Keep(y[k], Mask(n, |x|)[k]) <==> SameFirst(x[k], y[k], BitsIn(n, k)) {
      SameBits(x[k], y[k], BitsIn(n, k));
    }
    if SamePrefix(x, y, n) {
      forall k | 0 <= k < |x| ensures SameFirst(x[k], y[k], BitsIn(n, k)) {
        PrefixGivesByte(x, y, n, k);
      }
    }
    if forall k :: 0 <= k < |x| ==> SameFirst(x[k], y[k], BitsIn(n, k)) {
      forall i | 0 <= i < n ensures BitAt(x, i) == BitAt(y, i) {
        BitIsIn(n, i);
        assert SameFirst(x[i / 8], y[i / 8], BitsIn(n, i / 8));
      }
    }
  }

  lemma PrefixGivesByte(x: seq<Octet>, y: seq<Octet>, n: nat, k: nat)
    requires |x| == |y| && n <= 8 * |x| && k < |x| && SamePrefix(x, y, n)
    ensures SameFirst(x[k], y[k], BitsIn(n, k))
  {
    hide Bit;
    forall j | 0 <= j < BitsIn(n, k) ensures Bit(x[k], j) == Bit(y[k], j) {
      assert (8 * k + j) / 8 == k && (8 * k + j) % 8 == j;
      assert BitAt(x, 8 * k + j) == BitAt(y, 8 * k + j);
    }
  }

  lemma BitIsIn(n: nat, i: nat)
    requires i < n
    ensures i % 8 < BitsIn(n, i / 8)
  {
  }

  ghost predicate Masked(x: seq<Octet>, y: seq<Octet>, m: seq<Octet>)
    requires |x| == |y| == |m|
  {
    forall k :: 0 <= k < |x| ==> Keep(x[k], m[k]) == Keep(y[k], m[k])
  }

  // ---------------------------------------------------------------- the range test is exact

  lemma ByteRange(x: Octet, a: Octet, c: nat)
    requires c <= 8
    ensures Keep(a, MaskByte(c)) <= x <= Fill(a, MaskByte(c)) <==> Keep(x, MaskByte(c)) == Keep(a, MaskByte(c))
  {
  }

  lemma {:induction false} LeastBytes(x: seq<Octet>, y: seq<Octet>)
    requires |x| == |y| && forall k :: 0 <= k < |x| ==> x[k] == 0
    ensures BytesLeq(x, y)
  {
    if x != [] {
      LeastBytes(x[1..], y[1..]);
    }
  }

  lemma {:induction false} GreatestBytes(x: seq<Octet>, y: seq<Octet>)
    requires |x| == |y| && forall k :: 0 <= k < |y| ==> y[k] == 0xFF
    ensures BytesLeq(x, y)
  {
    if x != [] {
      GreatestBytes(x[1..], y[1..]);
    }
  }

  /** The mask of what is left after the first byte. */
  lemma MaskTail(n: nat, size: nat)
    requires size > 0
    ensures Mask(n, size)[1..] == Mask(if n >= 8 then n - 8 else 0, size - 1)
  {
    hide MaskByte;
  }

  /** When the prefix ends in the first byte, that byte alone decides. */
  lemma FirstByteDecides(x: seq<Octet>, a: seq<Octet>, n: nat, min: seq<Octet>, max: seq<Octet>)
    requires |x| == |a| > 0 && n < 8 && IsRange(a, Mask(n, |a|), min, max)
    ensures |x| == |min| == |max|
    ensures BytesLeq(min, x) && BytesLeq(x, max) <==> Keep(x[0], Mask(n, |a|)[0]) == Keep(a[0], Mask(n, |a|)[0])
    ensures Masked(x[1..], a[1..], Mask(n, |a|)[1..])
  {
    hide Keep, Fill, MaskByte, Mask, BytesLeq;
    ByteRange(x[0], a[0], n);
    forall k | 1 <= k < |a| ensures min[k] == 0 && max[k] == 0xFF && Keep(x[k], Mask(n, |a|)[k]) == Keep(a[k], Mask(n, |a|)[k]) {
      NoBits(a[k], x[k]);
    }
    LeastBytes(min[1..], x[1..]);
    GreatestBytes(x[1..], max[1..]);
    HeadDecides(min, x);
    HeadDecides(x, max);
  }

  lemma HeadDecides(x: seq<Octet>, y: seq<Octet>)
    requires |x| == |y| > 0 && BytesLeq(x[1..], y[1..])
    ensures BytesLeq(x, y) <==> x[0] <= y[0]
  {
  }

  /** When the prefix covers the first byte, the range fixes it. */
  lemma RangeTail(x: seq<Octet>, a: seq<Octet>, n: nat, min: seq<Octet>, max: seq<Octet>)
    requires |x| == |a| > 0 && n >= 8 && IsRange(a, Mask(n, |a|), min, max)
    ensures |x| == |min| == |max| && min[0] == a[0] == max[0]
    ensures Mask(n, |a|)[1..] == Mask(n - 8, |a| - 1) && IsRange(a[1..], Mask(n - 8, |a| - 1), min[1..], max[1..])
    ensures Keep(x[0], Mask(n, |a|)[0]) == x[0] && Keep(a[0], Mask(n, |a|)[0]) == a[0]
  {
    hide Keep, Fill, MaskByte, Mask;
    AllBits(a[0]);
    AllBits(x[0]);
    MaskTail(n, |a|);
  }

  lemma FirstByteEqual(min: seq<Octet>, x: seq<Octet>, max: seq<Octet>, b: Octet)
    requires |min| == |x| == |max| > 0 && min[0] == b == max[0]
    ensures BytesLeq(min, x) && BytesLeq(x, max) <==> x[0] == b && BytesLeq(min[1..], x[1..]) && BytesLeq(x[1..], max[1..])
  {
  }

  lemma RangeLength(a: seq<Octet>, m: seq<Octet>, min: seq<Octet>, max: seq<Octet>)
    requires IsRange(a, m, min, max)
    ensures |a| == |min| == |max|
  {
  }

  lemma MaskedTail(x: seq<Octet>, a: seq<Octet>, m: seq<Octet>)
    requires |x| == |a| == |m| > 0
    ensures Masked(x, a, m) <==> Keep(x[0], m[0]) == Keep(a[0], m[0]) && Masked(x[1..], a[1..], m[1..])
  {
    hide Keep;
    if Keep(x[0], m[0]) == Keep(a[0], m[0]) && Masked(x[1..], a[1..], m[1..]) {
      forall k | 0 <= k < |x| ensures Keep(x[k], m[k]) == Keep(a[k], m[k]) {
        assert k > 0 ==> x[k] == x[1..][k - 1] && a[k] == a[1..][k - 1] && m[k] == m[1..][k - 1];
      }
    }
  }

  /** The range of addresses is the set of those with the same bits under the mask. */
  lemma {:induction false} RangeIsMasked(x: seq<Octet>, a: seq<Octet>, n: nat, min: seq<Octet>, max: seq<Octet>)
    requires |x| == |a| && IsRange(a, Mask(n, |a|), min, max)
    ensures |min| == |x| == |max|
    ensures BytesLeq(min, x) && BytesLeq(x, max) <==> Masked(x, a, Mask(n, |a|))
    decreases |a|
  {
    hide Keep, Fill, MaskByte, Mask, Masked, IsRange, BytesLeq;
    if a == [] {
      RangeLength(a, Mask(n, 0), min, max);
      NothingMasked(x, a, Mask(n, 0));
    } else {
      MaskedTail(x, a, Mask(n, |a|));
      if n < 8 {
        FirstByteDecides(x, a, n, min, max);
      } else {
        RangeTail(x, a, n, min, max);
        RangeIsMasked(x[1..], a[1..], n - 8, min[1..], max[1..]);
        FirstByteEqual(min, x, max, a[0]);
      }
    }
  }

  lemma NothingMasked(x: seq<Octet>, a: seq<Octet>, m: seq<Octet>)
    requires |x| == |a| == |m| == 0
    ensures Masked(x, a, m) && BytesLeq(x, a) && BytesLeq(a, x)
  {
  }

  /** An address is in the network exactly when it is of the same family and has the same prefix. */
  lemma CidrIsExact(net: Network, a: Address, n: nat, x: Address)
    requires IsNetwork(net, a, n) && WellFormed(x)
    ensures DoesContain(net, x) <==> x.V4? == a.V4? && SamePrefix(x.bytes, a.bytes, n)
  {
    if x.V4? == a.V4? {
      RangeIsMasked(x.bytes, a.bytes, n, net.min.bytes, net.max.bytes);
      SamePrefixIsMasked(x.bytes, a.bytes, n);
    }
  }

  // ---------------------------------------------------------------- networks form a tree

  ghost predicate Within(inner: Network, outer: Network)
    requires WellFormed(inner.min) && WellFormed(inner.max) && WellFormed(outer.min) && WellFormed(outer.max)
  {
    forall x :: WellFormed(x) && DoesContain(inner, x) ==> DoesContain(outer, x)
  }

  ghost predicate Disjoint(p: Network, q: Network)
    requires WellFormed(p.min) && WellFormed(p.max) && WellFormed(q.min) && WellFormed(q.max)
  {
    forall x :: WellFormed(x) ==> !(DoesContain(p, x) && DoesContain(q, x))
  }

  /** Of two networks of one family the one with the longer prefix lies within the other, when the
      shorter prefix is the same, and otherwise they are disjoint. */
  lemma NestedOrDisjoint(p: Network, a: Address, n: nat, q: Network, b: Address, l: nat)
    requires IsNetwork(p, a, n) && IsNetwork(q, b, l) && a.V4? == b.V4? && n <= l
    ensures if SamePrefix(a.bytes, b.bytes, n) then Within(q, p) else Disjoint(p, q)
  {
    forall x | WellFormed(x)
      ensures SamePrefix(a.bytes, b.bytes, n) && DoesContain(q, x) ==> DoesContain(p, x)
      ensures DoesContain(p, x) && DoesContain(q, x) ==> SamePrefix(a.bytes, b.bytes, n)
    {
      CidrIsExact(p, a, n, x);
      CidrIsExact(q, b, l, x);
    }
  }

  /** The network of a whole address holds that address only. */
  lemma SingleAddress(a: Address, x: Address)
    requires WellFormed(a) && WellFormed(x)
    ensures DoesContain(Network(a, a), x) <==> x == a
  {
    BytesLeqRefl(a.bytes);
    if x.V4? == a.V4? && BytesLeq(a.bytes, x.bytes) && BytesLeq(x.bytes, a.bytes) {
      BytesLeqAntisymmetric(a.bytes, x.bytes);
    }
  }

  lemma {:induction false} BytesLeqRefl(x: seq<Octet>)
    ensures BytesLeq(x, x)
  {
    if x != [] {
      BytesLeqRefl(x[1..]);
    }
  }

  lemma {:induction false} BytesLeqAntisymmetric(x: seq<Octet>, y: seq<Octet>)
    requires |x| == |y| && BytesLeq(x, y) && BytesLeq(y, x)
    ensures x == y
  {
    if x != [] {
      BytesLeqAntisymmetric(x[1..], y[1..]);
      assert x == [x[0]] + x[1..] && y == [y[0]] + y[1..];
    }
  }
}
