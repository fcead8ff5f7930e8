/** Addresses of both families on one line: an IPv4 address is its IPv4-mapped IPv6 address. */
module Addresses {
  import opened Results
  import opened Cidr

  const MAPPED_FIRST: nat := 0xffff_0000_0000
  const MAPPED_LAST: nat := 0xffff_ffff_ffff

  predicate IsAddress(ip: Bytes) {
    |ip| == 4 || |ip| == 16
  }

  const MAPPED_PREFIX: Bytes := [0, 0, 0, 0, 0, 0, 0, 0, 0, 0, 0xff, 0xff]

  /** An IPv4 address in either form. */
  predicate IsV4(ip: Bytes)
    requires IsAddress(ip)
  {
    |ip| == 4 || ip[..12] == MAPPED_PREFIX
  }

  function To16(ip: Bytes): Bytes
    requires IsAddress(ip)
  {
    if |ip| == 4 then MAPPED_PREFIX + ip else ip
  }

  /** The four-byte form where there is one, as net.IP.To4 gives it. */
  function Canonical(ip: Bytes): Bytes
    requires IsAddress(ip)
  {
    if |ip| == 16 && IsV4(ip) then ip[12..] else ip
  }

  function Value(ip: Bytes): nat
    requires IsAddress(ip)
  {
    BigEndian(To16(ip))
  }

  predicate IsV4Value(v: nat) {
    MAPPED_FIRST <= v <= MAPPED_LAST
  }

  /** A parsed CIDR: the masked network address, the mask, and the prefix length. */
  datatype Subnet = Subnet(ip: Bytes, mask: Bytes, ones: nat) {
    predicate Valid() {
      && IsAddress(ip) && |mask| == |ip|
      && IsPrefixMask(mask, ones)
      && IsMasked(ip, mask)
    }

    function Bits(): nat {
      8 * |mask|
    }

    function Last(): Bytes
      requires |ip| == |mask|
    {
      seq(|ip|, i requires 0 <= i < |ip| => LastByte(ip[i], mask[i]))
    }
  }

  type Address = b: Bytes | IsAddress(b) witness [0, 0, 0, 0]

  type Network = s: Subnet | s.Valid() witness Subnet([0, 0, 0, 0], [0, 0, 0, 0], 0)

  /** The net package's parsers, for trimmed text. */
  datatype Parser = Parser(ip: string -> Option<Address>, cidr: string -> Option<Network>)

  function Lo(s: Subnet): nat
    requires IsAddress(s.ip)
  {
    Value(s.ip)
  }

  function Hi(s: Subnet): nat
    requires IsAddress(s.ip) && |s.mask| == |s.ip|
  {
    Value(s.Last())
  }

  /** net.IPNet.Contains: both sides in their shortest form, and of the same length. */
  predicate Contains(s: Subnet, ip: Bytes)
    requires IsAddress(s.ip) && |s.mask| == |s.ip| && IsAddress(ip)
  {
    var network := Canonical(s.ip);
    var mask := if |network| < |s.mask| then s.mask[12..] else s.mask;
    var address := Canonical(ip);
    |address| == |network| && Match(network, mask, address)
  }

  /** Membership as a question about two numbers: inside the bounds, and of the subnet's family. */
  ghost predicate Covers(s: Subnet, v: nat)
    requires IsAddress(s.ip) && |s.mask| == |s.ip|
  {
    Lo(s) <= v <= Hi(s) && (IsV4Value(v) <==> IsV4(s.ip))
  }

  /** Four more digits shift a number by 2^32. */
  lemma LeadingDigits(prefix: seq<nat>, digits: seq<nat>)
    requires |digits| == 4
    ensures Number(prefix + digits) == 0x1_0000_0000 * Number(prefix) + Number(digits)
  {
    FourDigits(prefix, digits);
    FourDigits([], digits);
    assert [] + digits == digits;
  }

  lemma FourDigits(prefix: seq<nat>, d: seq<nat>)
    requires |d| == 4
    ensures Number(prefix + d) ==
            0x1_0000_0000 * Number(prefix) + 0x100_0000 * d[0] + 0x1_0000 * d[1] + 0x100 * d[2] + d[3]
  {
    assert d[..3][..2] == d[..2] && d[..2][..1] == d[..1];
    assert (prefix + d)[..|prefix| + 3] == prefix + d[..3];
    assert (prefix + d[..3])[..|prefix| + 2] == prefix + d[..2];
    assert (prefix + d[..2])[..|prefix| + 1] == prefix + d[..1];
    assert (prefix + d[..1])[..|prefix|] == prefix;
    assert Number(prefix + d[..1]) == 256 * Number(prefix) + d[0];
    assert Number(prefix + d[..2]) == 256 * Number(prefix + d[..1]) + d[1];
    assert Number(prefix + d[..3]) == 256 * Number(prefix + d[..2]) + d[2];
    assert Number(prefix + d) == 256 * Number(prefix + d[..3]) + d[3];
  }

  lemma {:induction false} ZerosAreZero(digits: seq<nat>)
    requires forall i :: 0 <= i < |digits| ==> digits[i] == 0
    ensures Number(digits) == 0
  {
    if digits != [] {
      ZerosAreZero(digits[..|digits| - 1]);
    }
  }

  lemma PrefixValue()
    ensures BigEndian(MAPPED_PREFIX) == 0xffff
  {
    var d := Digits(MAPPED_PREFIX);
    ZerosAreZero(d[..10]);
    assert d[..11][..10] == d[..10] && d[..11][10] == 255 && d[11] == 255;
    assert Number(d[..11]) == 255;
  }

  lemma ValueOfV4(ip: Bytes)
    requires |ip| == 4
    ensures Value(ip) == MAPPED_FIRST + BigEndian(ip) && IsV4Value(Value(ip))
  {
    PrefixValue();
    assert Digits(MAPPED_PREFIX + ip) == Digits(MAPPED_PREFIX) + Digits(ip);
    LeadingDigits(Digits(MAPPED_PREFIX), Digits(ip));
    V4Bound(Digits(ip));
  }

  lemma V4Bound(d: seq<nat>)
    requires |d| == 4 && AreDigits(d)
    ensures Number(d) <= 0xffff_ffff
  {
    FourDigits([], d);
    assert [] + d == d;
  }

  function MappedMask(): Bytes {
    [0xff, 0xff, 0xff, 0xff, 0xff, 0xff, 0xff, 0xff, 0xff, 0xff, 0xff, 0xff, 0x00, 0x00, 0x00, 0x00]
  }

  lemma MappedMaskKeepsPrefix(a: Bytes)
    requires |a| == 16
    ensures Match(MAPPED_PREFIX + [0, 0, 0, 0], MappedMask(), a) <==> a[..12] == MAPPED_PREFIX
  {
    var network, mask := MAPPED_PREFIX + [0, 0, 0, 0], MappedMask();
    forall i | 0 <= i < 16 ensures ByteMatches(network[i], mask[i], a[i]) <==> i >= 12 || a[i] == network[i] {
      MaskExtremes(network[i], a[i]);
    }
    assert a[..12] == MAPPED_PREFIX <==> forall i :: 0 <= i < 12 ==> a[i] == network[i];
  }

  lemma MaskExtremes(n: bv8, a: bv8)
    ensures ByteMatches(n, 0x00, a)
    ensures ByteMatches(n, 0xff, a) <==> a == n
  {
  }

  function MappedNetwork(): (s: Subnet)
    ensures |s.ip| == |s.mask| == 16
  {
    Subnet(MAPPED_PREFIX + [0, 0, 0, 0], MappedMask(), 96)
  }

  lemma MappedNetworkIsValid()
    ensures MappedNetwork().Valid()
    ensures MappedNetwork().Last() == MAPPED_PREFIX + [0xff, 0xff, 0xff, 0xff]
  {
    var s, last := MappedNetwork(), MAPPED_PREFIX + [0xff, 0xff, 0xff, 0xff];
    MappedMaskIsPrefix();
    forall i | 0 <= i < 16 ensures s.ip[i] & s.mask[i] == s.ip[i] && LastByte(s.ip[i], s.mask[i]) == last[i] {
      KeptAndFilled(s.ip[i]);
      assert if i < 12 then s.mask[i] == 0xff && last[i] == s.ip[i] else s.mask[i] == 0 && s.ip[i] == 0 && last[i] == 0xff;
    }
    assert s.Last() == last;
  }

  lemma KeptAndFilled(b: bv8)
    ensures b & 0xff == b && LastByte(b, 0xff) == b && LastByte(0, 0) == 0xff
  {
  }

  lemma MappedMaskIsPrefix()
    ensures IsPrefixMask(MappedMask(), 96)
  {
    forall i | 0 <= i < 16 ensures MappedMask()[i] == MaskByte(OnesIn(96, i)) {
      assert OnesIn(96, i) == if i < 12 then 8 else 0;
    }
  }

  lemma FourBytes(b: Bytes)
    requires |b| == 4
    ensures BigEndian(b) == 0x100_0000 * b[0] as nat + 0x1_0000 * b[1] as nat + 0x100 * b[2] as nat + b[3] as nat
  {
    FourDigits([], Digits(b));
    assert [] + Digits(b) == Digits(b);
  }

  lemma FirstV4()
    ensures Value([0, 0, 0, 0]) == MAPPED_FIRST
  {
    ValueOfV4([0, 0, 0, 0]);
    FourBytes([0, 0, 0, 0]);
  }

  lemma LastV4()
    ensures Value([0xff, 0xff, 0xff, 0xff]) == MAPPED_LAST
  {
    ValueOfV4([0xff, 0xff, 0xff, 0xff]);
    FourBytes([0xff, 0xff, 0xff, 0xff]);
  }

  lemma MappedNetworkBounds()
    ensures Lo(MappedNetwork()) == MAPPED_FIRST && Hi(MappedNetwork()) == MAPPED_LAST
  {
    MappedNetworkIsValid();
    FirstV4();
    LastV4();
  }

  /** The IPv4-mapped addresses are one subnet with a 96-bit prefix. */
  lemma MappedBlock(a: Bytes)
    requires |a| == 16
    ensures a[..12] == MAPPED_PREFIX <==> IsV4Value(BigEndian(a))
  {
    var s := MappedNetwork();
    MappedNetworkIsValid();
    MappedNetworkBounds();
    MatchIsInterval(s.ip, s.mask, 96, s.Last(), a);
    MappedMaskKeepsPrefix(a);
  }

  /** The family of an address can be read off its value. */
  lemma FamilyOfValue(ip: Bytes)
    requires IsAddress(ip)
    ensures IsV4Value(Value(ip)) <==> IsV4(ip)
  {
    if |ip| == 4 {
      ValueOfV4(ip);
    } else {
      MappedBlock(ip);
    }
  }

  /** Membership in a parsed subnet depends only on the address's value, whatever form either is in. */
  lemma ContainsIsCovers(s: Subnet, ip: Bytes)
    requires s.Valid() && IsAddress(ip)
    ensures Contains(s, ip) <==> Covers(s, Value(ip))
  {
    FamilyOfValue(ip);
    if |s.ip| == 4 {
      ValueOfV4(s.ip);
      ValueOfV4(s.Last());
      if IsV4(ip) {
        var x := Canonical(ip);
        assert To16(x) == To16(ip);
        ValueOfV4(x);
        MatchIsInterval(s.ip, s.mask, s.ones, s.Last(), x);
      }
    } else {
      MatchIsInterval(s.ip, s.mask, s.ones, s.Last(), To16(ip));
      if IsV4(s.ip) && IsV4(ip) {
        MappedMatch(s, To16(ip));
      }
    }
  }

  lemma MappedMatch(s: Subnet, ip: Bytes)
    requires s.Valid() && |s.ip| == |ip| == 16 && IsV4(s.ip) && IsV4(ip)
    ensures Match(s.ip, s.mask, ip) <==> Match(s.ip[12..], s.mask[12..], ip[12..])
  {
    assert forall i :: 0 <= i < 12 ==> s.ip[i] == s.ip[..12][i] == ip[..12][i] == ip[i];
    assert forall i :: 0 <= i < 4 ==> s.ip[12..][i] == s.ip[i + 12] && s.mask[12..][i] == s.mask[i + 12] && ip[12..][i] == ip[i + 12];
    if Match(s.ip[12..], s.mask[12..], ip[12..]) {
      forall i | 0 <= i < 16 ensures ByteMatches(s.ip[i], s.mask[i], ip[i]) {
        if i >= 12 {
          assert ByteMatches(s.ip[12..][i - 12], s.mask[12..][i - 12], ip[12..][i - 12]);
        }
      }
    }
    if Match(s.ip, s.mask, ip) {
      forall i | 0 <= i < 4 ensures ByteMatches(s.ip[12..][i], s.mask[12..][i], ip[12..][i]) {
        assert ByteMatches(s.ip[i + 12], s.mask[i + 12], ip[i + 12]);
      }
    }
  }

  /** The prefix length a subnet has in its sixteen-byte form. */
  function LongOnes(s: Subnet): int {
    s.ones + 128 - s.Bits()
  }

  const FULL_MASK: Bytes := [0xff, 0xff, 0xff, 0xff, 0xff, 0xff, 0xff, 0xff, 0xff, 0xff, 0xff, 0xff]

  /** The same subnet written with sixteen bytes. */
  function LongForm(s: Network): Subnet {
    if |s.ip| == 16 then s else Subnet(To16(s.ip), FULL_MASK + s.mask, s.ones + 96)
  }

  lemma LongFormIsValid(s: Network)
    ensures LongForm(s).Valid() && |LongForm(s).ip| == 16 && LongForm(s).ones == LongOnes(s)
    ensures IsV4(LongForm(s).ip) <==> IsV4(s.ip)
  {
    if |s.ip| == 4 {
      var long := LongForm(s);
      forall i | 0 <= i < 16
        ensures long.mask[i] == MaskByte(OnesIn(long.ones, i)) && long.ip[i] & long.mask[i] == long.ip[i]
      {
        if i >= 12 {
          assert OnesIn(long.ones, i) == OnesIn(s.ones, i - 12);
          assert s.ip[i - 12] & s.mask[i - 12] == s.ip[i - 12];
        } else {
          AllBits(long.ip[i]);
        }
      }
      assert long.ip[..12] == MAPPED_PREFIX;
    }
  }

  lemma AllBits(b: bv8)
    ensures b & 0xff == b && MaskByte(8) == 0xff
  {
  }

  lemma LongFormIsSame(s: Network)
    ensures LongForm(s).Valid() && |LongForm(s).ip| == 16 && LongForm(s).ones == LongOnes(s)
    ensures forall a: Address :: Contains(s, a) <==> Contains(LongForm(s), a)
  {
    LongFormIsValid(s);
    if |s.ip| == 4 {
      var long := LongForm(s);
      assert long.ip[12..] == s.ip && long.mask[12..] == s.mask && long.ip[..12] == MAPPED_PREFIX;
      assert Canonical(long.ip) == s.ip;
    }
  }

  /** How many values a subnet's interval holds. */
  lemma NetworkSize(s: Network)
    ensures Hi(s) + 1 == Lo(s) + Pow2(s.Bits() - s.ones)
  {
    SubnetSize(s.ip, s.mask, s.ones, s.Last());
    if |s.ip| == 4 {
      ValueOfV4(s.ip);
      ValueOfV4(s.Last());
    }
  }

  lemma {:induction false} NumberIsInjective(a: seq<nat>, b: seq<nat>)
    requires |a| == |b| && AreDigits(a) && AreDigits(b) && Number(a) == Number(b)
    ensures a == b
  {
    if a != [] {
      var z := |a| - 1;
      NumberIsInjective(a[..z], b[..z]);
      assert a == a[..z] + [a[z]] && b == b[..z] + [b[z]];
    }
  }

  /** Addresses with the same value are the same address, up to their written form. */
  lemma ValueIsInjective(a: Address, b: Address)
    requires Value(a) == Value(b)
    ensures To16(a) == To16(b)
  {
    NumberIsInjective(Digits(To16(a)), Digits(To16(b)));
    assert forall i :: 0 <= i < 16 ==> To16(a)[i] as nat == To16(b)[i] as nat;
  }

  lemma {:induction false} NumberBound(d: seq<nat>)
    requires AreDigits(d)
    ensures Number(d) < Pow2(8 * |d|)
  {
    if d != [] {
      NumberBound(d[..|d| - 1]);
      Pow2Add8(8 * (|d| - 1));
    }
  }

  function ToByte(x: nat): (b: bv8)
    requires x < 256
    ensures b as nat == x
  {
    if x == 0 then 0 else ToByte(x - 1) + 1
  }

  function FromNumber(v: nat, n: nat): (b: Bytes)
    ensures |b| == n
  {
    if n == 0 then [] else FromNumber(v / 256, n - 1) + [ToByte(v % 256)]
  }

  lemma {:induction false} FromNumberIsInverse(v: nat, n: nat)
    requires v < Pow2(8 * n)
    ensures BigEndian(FromNumber(v, n)) == v
  {
    if n > 0 {
      Pow2Add8(8 * (n - 1));
      FromNumberIsInverse(v / 256, n - 1);
      AppendDigit(FromNumber(v / 256, n - 1), ToByte(v % 256));
    }
  }

  lemma AppendDigit(front: Bytes, b: bv8)
    ensures BigEndian(front + [b]) == 256 * BigEndian(front) + b as nat
  {
    assert Digits(front + [b])[..|front|] == Digits(front);
  }

  /** An address for every value on the line. */
  function AddressAt(v: nat): Address {
    FromNumber(v, 16)
  }

  lemma AddressAtValue(v: nat, a: Address)
    requires v <= Value(a)
    ensures Value(AddressAt(v)) == v
  {
    NumberBound(Digits(To16(a)));
    FromNumberIsInverse(v, 16);
  }
}
