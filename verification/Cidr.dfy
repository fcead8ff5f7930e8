/**
  IP addresses as byte strings, and CIDR subnets as a network address and a prefix mask
  (section 3.1 of RFC 4632, section 2.3 of RFC 4291).
 */
module Cidr {

  type Bytes = seq<bv8>

  /** The number that a sequence of base-256 digits spells, most significant digit first. */
  function Number(digits: seq<nat>): nat {
    if digits == [] then 0 else 256 * Number(digits[..|digits| - 1]) + digits[|digits| - 1]
  }

  function Digits(b: Bytes): (digits: seq<nat>)
    ensures |digits| == |b|
    ensures forall i :: 0 <= i < |b| ==> digits[i] == b[i] as nat
  {
    seq(|b|, i requires 0 <= i < |b| => b[i] as nat)
  }

  function BigEndian(b: Bytes): nat {
    Number(Digits(b))
  }

  function Pow2(n: nat): (p: nat)
    ensures p > 0
  {
    if n == 0 then 1 else 2 * Pow2(n - 1)
  }

  /** The byte whose first `k` bits are ones. */
  function MaskByte(k: nat): bv8
    requires k <= 8
  {
    if k == 0 then 0x00 else if k == 1 then 0x80 else if k == 2 then 0xc0
    else if k == 3 then 0xe0 else if k == 4 then 0xf0 else if k == 5 then 0xf8
    else if k == 6 then 0xfc else if k == 7 then 0xfe else 0xff
  }

  /** How many of the first `ones` bits fall into byte `i`. */
  function OnesIn(ones: nat, i: nat): (k: nat)
    ensures k <= 8
  {
    if ones <= 8 * i then 0 else if ones >= 8 * i + 8 then 8 else ones - 8 * i
  }

  predicate IsPrefixMask(mask: Bytes, ones: nat) {
    ones <= 8 * |mask| && forall i :: 0 <= i < |mask| ==> mask[i] == MaskByte(OnesIn(ones, i))
  }

  /** Every prefix length up to the full width has its mask, and one only. */
  lemma EveryPrefixHasOneMask(n: nat, ones: nat, mask: Bytes)
    requires ones <= 8 * n && |mask| == n
    ensures IsPrefixMask(mask, ones) <==> forall i :: 0 <= i < n ==> mask[i] == MaskByte(OnesIn(ones, i))
  {
  }

  /** The address matches the network in every bit the mask keeps. */
  predicate Match(network: Bytes, mask: Bytes, address: Bytes)
    requires |network| == |mask| == |address|
  {
    forall i :: 0 <= i < |mask| ==> ByteMatches(network[i], mask[i], address[i])
  }

  predicate ByteMatches(n: bv8, m: bv8, a: bv8) {
    n & m == a & m
  }

  function LastByte(n: bv8, m: bv8): bv8 {
    n | !m
  }

  predicate IsMasked(network: Bytes, mask: Bytes)
    requires |network| == |mask|
  {
    forall i :: 0 <= i < |mask| ==> network[i] & mask[i] == network[i]
  }

  /** The last address of a subnet: every bit outside the mask set. */
  ghost predicate IsLast(network: Bytes, mask: Bytes, last: Bytes)
    requires |network| == |mask|
  {
    |last| == |network| && forall i :: 0 <= i < |mask| ==> last[i] == LastByte(network[i], mask[i])
  }

  /** First and last address of a subnet. */
  method CidrHostBounds(network: Bytes, mask: Bytes) returns (first: Bytes, last: Bytes)
    requires |network| == |mask|
    ensures first == network && IsLast(network, mask, last)
  {
    first := network;
    var bytes := new bv8[|network|];
    for i := 0 to bytes.Length
      invariant forall k :: 0 <= k < i ==> bytes[k] == LastByte(network[k], mask[k])
    {
      bytes[i] := network[i] | !mask[i];
    }
    last := bytes[..];
  }

  lemma OrderAsNat(a: bv8, b: bv8)
    ensures a <= b <==> a as nat <= b as nat
  {
  }

  lemma ByteBounds(n: bv8, a: bv8, k: nat)
    requires k <= 8 && n & MaskByte(k) == n
    ensures ByteMatches(n, MaskByte(k), a) <==> n as nat <= a as nat <= LastByte(n, MaskByte(k)) as nat
  {
    ByteInterval(n, a, k);
    OrderAsNat(n, a);
    OrderAsNat(a, LastByte(n, MaskByte(k)));
  }

  lemma ByteInterval(n: bv8, a: bv8, k: nat)
    requires k <= 8 && n & MaskByte(k) == n
    ensures ByteMatches(n, MaskByte(k), a) <==> n <= a <= LastByte(n, MaskByte(k))
  {
  }

  lemma SumAsNat(a: bv8, b: bv8)
    requires a & b == 0
    ensures (a | b) as nat == a as nat + b as nat
  {
    assert a | b == a + b && a <= 255 - b;
  }

  lemma HostBits(k: nat)
    requires k <= 8
    ensures (!MaskByte(k)) as nat + 1 == Pow2(8 - k)
  {
  }

  lemma ByteSize(n: bv8, k: nat)
    requires k <= 8 && n & MaskByte(k) == n
    ensures LastByte(n, MaskByte(k)) as nat + 1 == n as nat + Pow2(8 - k)
  {
    SumAsNat(n, !MaskByte(k));
    HostBits(k);
  }

  lemma ByteExtremes(n: bv8)
    ensures n & MaskByte(0) == n ==> n as nat == 0 && LastByte(n, MaskByte(0)) as nat == 255
    ensures LastByte(n, MaskByte(8)) == n
    ensures forall a: bv8 :: ByteMatches(n, MaskByte(8), a) <==> a == n
  {
  }

  ghost predicate AreDigits(d: seq<nat>) {
    forall i :: 0 <= i < |d| ==> d[i] < 256
  }

  /** Below some position the bounds agree, above it they are 0 and 255: the shape of a prefix block. */
  ghost predicate BlockBounds(first: seq<nat>, last: seq<nat>, p: nat) {
    && |first| == |last|
    && (forall i :: 0 <= i < p && i < |first| ==> first[i] == last[i])
    && (forall i :: p < i < |first| ==> first[i] == 0 && last[i] == 255)
  }

  /** One more digit, where the numbers so far are equal or the new digit can be anything. */
  lemma LastDigitBetween(first: nat, value: nat, last: nat, f: nat, v: nat, l: nat)
    requires f < 256 && v < 256 && l < 256
    requires first == last || (f == 0 && l == 255)
    ensures first <= value <= last && f <= v <= l <==> 256 * first + f <= 256 * value + v <= 256 * last + l
  {
  }

  ghost predicate DigitwiseBetween(first: seq<nat>, value: seq<nat>, last: seq<nat>)
    requires |first| == |value| == |last|
  {
    forall i :: 0 <= i < |first| ==> first[i] <= value[i] <= last[i]
  }

  lemma DigitwiseBetweenFront(first: seq<nat>, value: seq<nat>, last: seq<nat>)
    requires |first| == |value| == |last| > 0
    ensures var z := |first| - 1;
            DigitwiseBetween(first, value, last) <==>
            DigitwiseBetween(first[..z], value[..z], last[..z]) && first[z] <= value[z] <= last[z]
  {
  }

  /** For the bounds of a prefix block, lying between them digit by digit and as numbers is the same. */
  lemma {:induction false} DigitsBetween(first: seq<nat>, value: seq<nat>, last: seq<nat>, p: nat)
    requires BlockBounds(first, last, p) && |value| == |first|
    requires AreDigits(first) && AreDigits(value) && AreDigits(last)
    ensures DigitwiseBetween(first, value, last) <==> Number(first) <= Number(value) <= Number(last)
    decreases |first|
  {
    if first != [] {
      var z := |first| - 1;
      DigitsBetween(first[..z], value[..z], last[..z], p);
      assert first[..z] == last[..z] || (first[z] == 0 && last[z] == 255);
      DigitwiseBetweenFront(first, value, last);
      LastDigitBetween(Number(first[..z]), Number(value[..z]), Number(last[..z]), first[z], value[z], last[z]);
    }
  }

  /** The number of values between the bounds of a prefix block, given the size of the partial digit. */
  lemma {:induction false} BlockSize(first: seq<nat>, last: seq<nat>, p: nat, bits: nat)
    requires BlockBounds(first, last, p) && p < |first|
    requires last[p] + 1 == first[p] + Pow2(bits)
    ensures Number(last) + 1 == Number(first) + Pow2(bits + 8 * (|first| - 1 - p))
    decreases |first|
  {
    var z := |first| - 1;
    if z == p {
      assert first[..z] == last[..z];
    } else {
      BlockSize(first[..z], last[..z], p, bits);
      Pow2Add8(bits + 8 * (z - 1 - p));
    }
  }

  /** The byte that the prefix ends in. */
  function PartialByte(ones: nat): nat {
    ones / 8
  }

  lemma SubnetBounds(network: Bytes, mask: Bytes, ones: nat, last: Bytes)
    requires |network| == |mask|
    requires IsPrefixMask(mask, ones) && IsMasked(network, mask) && IsLast(network, mask, last)
    ensures BlockBounds(Digits(network), Digits(last), PartialByte(ones))
  {
    forall i | 0 <= i < |mask|
      ensures i < PartialByte(ones) ==> network[i] == last[i]
      ensures i > PartialByte(ones) ==> network[i] as nat == 0 && last[i] as nat == 255
    {
      assert mask[i] == MaskByte(OnesIn(ones, i));
      ByteExtremes(network[i]);
    }
  }

  /**
    For every address length and every prefix length: an address matches the subnet exactly when its
    big-endian value lies between the two bounds.
   */
  lemma MatchIsInterval(network: Bytes, mask: Bytes, ones: nat, last: Bytes, a: Bytes)
    requires |network| == |mask| == |a|
    requires IsPrefixMask(mask, ones) && IsMasked(network, mask) && IsLast(network, mask, last)
    ensures Match(network, mask, a) <==> BigEndian(network) <= BigEndian(a) <= BigEndian(last)
  {
    SubnetBounds(network, mask, ones, last);
    var f, v, l := Digits(network), Digits(a), Digits(last);
    forall i | 0 <= i < |mask| ensures ByteMatches(network[i], mask[i], a[i]) <==> f[i] <= v[i] <= l[i] {
      assert mask[i] == MaskByte(OnesIn(ones, i));
      ByteBounds(network[i], a[i], OnesIn(ones, i));
    }
    DigitsBetween(f, v, l, PartialByte(ones));
  }

  /** A subnet holds two to the power of its host bits addresses. */
  lemma SubnetSize(network: Bytes, mask: Bytes, ones: nat, last: Bytes)
    requires |network| == |mask|
    requires IsPrefixMask(mask, ones) && IsMasked(network, mask) && IsLast(network, mask, last)
    ensures BigEndian(last) + 1 == BigEndian(network) + Pow2(8 * |mask| - ones)
  {
    SubnetBounds(network, mask, ones, last);
    var p := PartialByte(ones);
    if p < |mask| {
      PartialByteSize(network, mask, ones, last);
      BlockSize(Digits(network), Digits(last), p, 8 - OnesIn(ones, p));
    } else {
      assert Digits(network) == Digits(last);
    }
  }

  lemma PartialByteSize(network: Bytes, mask: Bytes, ones: nat, last: Bytes)
    requires |network| == |mask|
    requires IsPrefixMask(mask, ones) && IsMasked(network, mask) && IsLast(network, mask, last)
    requires PartialByte(ones) < |mask|
    ensures var p := PartialByte(ones);
            Digits(last)[p] + 1 == Digits(network)[p] + Pow2(8 - OnesIn(ones, p))
  {
    var p := PartialByte(ones);
    assert mask[p] == MaskByte(OnesIn(ones, p));
    ByteSize(network[p], OnesIn(ones, p));
  }

  lemma Pow2Add8(n: nat)
    ensures Pow2(n + 8) == 256 * Pow2(n) && Pow2(8) == 256
  {
    assert Pow2(n + 2) == 4 * Pow2(n);
    assert Pow2(n + 4) == 4 * Pow2(n + 2);
    assert Pow2(n + 6) == 4 * Pow2(n + 4);
    assert Pow2(n + 8) == 4 * Pow2(n + 6);
    assert Pow2(4) == 16;
  }

  lemma {:induction false} Pow2IsMonotone(a: nat, b: nat)
    requires a <= b
    ensures Pow2(a) <= Pow2(b)
    decreases b - a
  {
    if a < b {
      Pow2IsMonotone(a, b - 1);
    }
  }

  lemma WiderByteAgrees(a: bv8, b: bv8, wide: nat, narrow: nat)
    requires wide <= narrow <= 8
    requires a & MaskByte(narrow) == b & MaskByte(narrow)
    ensures a & MaskByte(wide) == b & MaskByte(wide)
  {
    assert MaskByte(wide) & MaskByte(narrow) == MaskByte(wide);
  }

  /** Prefix blocks are nested or disjoint: a block that shares one address with a wider one lies inside it. */
  lemma BlocksNest(wide: Bytes, wideMask: Bytes, wideOnes: nat, narrow: Bytes, narrowMask: Bytes, narrowOnes: nat,
                   shared: Bytes, a: Bytes)
    requires |wide| == |wideMask| == |narrow| == |narrowMask| == |shared| == |a|
    requires IsPrefixMask(wideMask, wideOnes) && IsPrefixMask(narrowMask, narrowOnes) && wideOnes <= narrowOnes
    requires Match(wide, wideMask, shared) && Match(narrow, narrowMask, shared)
    requires Match(narrow, narrowMask, a)
    ensures Match(wide, wideMask, a)
  {
    forall i | 0 <= i < |a| ensures ByteMatches(wide[i], wideMask[i], a[i]) {
      var w, n := OnesIn(wideOnes, i), OnesIn(narrowOnes, i);
      assert wideMask[i] == MaskByte(w) && narrowMask[i] == MaskByte(n);
      assert ByteMatches(narrow[i], narrowMask[i], shared[i]) && ByteMatches(narrow[i], narrowMask[i], a[i]);
      assert ByteMatches(wide[i], wideMask[i], shared[i]);
      WiderByteAgrees(shared[i], a[i], w, n);
    }
  }
}
