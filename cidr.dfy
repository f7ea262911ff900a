/**
 * IPv4 address blocks in prefix notation (section 3.1 of RFC 4632), as the
 * overlap scan uses them through Python's `ipaddress.IPv4Network(text)`:
 * construction in its default strict mode, and `overlaps`.
 *
 * Addresses are natural numbers below 2^32. The AND of an address with the
 * netmask of prefix length p is written `a - a % 2^(32-p)`.
 */
module Cidr {
  import opened Wrappers
  import opened PyText

  /** The largest IPv4 address, 255.255.255.255. */
  const AllOnes: nat := 0xFFFF_FFFF

  function Pow2(k: nat): (r: nat)
    ensures r >= 1
  {
    if k == 0 then 1 else 2 * Pow2(k - 1)
  }

  lemma {:induction false} Pow2Add(a: nat, b: nat)
    ensures Pow2(a + b) == Pow2(a) * Pow2(b)
    decreases a
  {
    if a > 0 {
      Pow2Add(a - 1, b);
      assert Pow2(a + b) == 2 * Pow2(a - 1 + b);
    }
  }

  lemma Pow2Of32()
    ensures Pow2(32) == AllOnes + 1
  {
    assert Pow2(4) == 16;
    assert Pow2(8) == 256 by { Pow2Add(4, 4); }
    assert Pow2(16) == 65536 by { Pow2Add(8, 8); }
    Pow2Add(16, 16);
  }

  lemma {:induction false} Pow2Monotone(a: nat, b: nat)
    requires a <= b
    ensures Pow2(a) <= Pow2(b)
    decreases b
  {
    if a < b {
      Pow2Monotone(a, b - 1);
    }
  }

  /** A prefix length: the number of leading network bits of an address. */
  type PrefixLength = p: nat | p <= 32

  /** The number of addresses in a block with the given prefix length. */
  function BlockSize(prefix: PrefixLength): (s: nat)
    ensures 1 <= s <= AllOnes + 1
  {
    Pow2Of32();
    Pow2Monotone(32 - prefix, 32);
    Pow2(32 - prefix)
  }

  /** The exceptions `IPv4Network(text)` raises. */
  datatype CidrError =
    | AddressValueError   // the address part is not a dotted quad, or there is more than one '/'
    | NetmaskValueError   // the part after '/' is neither a prefix length nor a netmask or hostmask
    | HostBitsSet         // strict mode: the address has bits set beyond the prefix

  /** An IPv4 network: its network address and prefix length. */
  datatype Network = Network(address: nat, prefix: PrefixLength) {

    /** What a constructed `IPv4Network` satisfies: a 32-bit address with no host bits set. */
    predicate Valid() {
      address <= AllOnes && address % BlockSize(prefix) == 0
    }

    /** `broadcast_address`: the last address of the block, a 32-bit address like the first. */
    function Broadcast(): (b: nat)
      ensures address <= b
      ensures Valid() ==> b <= AllOnes
    {
      BroadcastBound(address, prefix);
      address + BlockSize(prefix) - 1
    }

    /** `a in self`: the address ANDed with the netmask is the network address. */
    predicate Contains(a: nat)
      ensures Contains(a) ==> address <= a < address + BlockSize(prefix)
    {
      a - a % BlockSize(prefix) == address
    }

    /**
     * `self.overlaps(other)`: either block holds the network or the broadcast
     * address of the other.
     */
    predicate Overlaps(other: Network)
      ensures Overlaps(other) ==> Intersects(other)
    {
      other.Contains(address) || other.Contains(Broadcast())
      || Contains(other.address) || Contains(other.Broadcast())
    }

    /** The two address ranges, network to broadcast address inclusive, have an address in common. */
    predicate Intersects(other: Network)
    {
      address <= other.Broadcast() && other.address <= Broadcast()
    }

    /** `self.subnet_of(other)`: every address of this block is in the other. */
    predicate SubnetOf(other: Network)
      ensures SubnetOf(other) ==> Intersects(other)
    {
      other.address <= address && Broadcast() <= other.Broadcast()
    }
  }

  // -------------------------------------------------------------------------
  // Parsing, in the order `IPv4Network.__init__` performs its checks

  /** `_parse_octet`: 1 to 3 ASCII digits, no leading zero, at most 255. */
  function ParseOctet(s: string): (r: Option<nat>)
    ensures r.Some? ==> r.value < 256 && s == DecimalString(r.value)
  {
    if s == [] then None
    else if !AllDigits(s) then None
    else if |s| > 3 then None
    else if s != "0" && s[0] == '0' then None
    else if DecimalValue(s) > 255 then None
    else
      CanonicalDigits(s);
      Some(DecimalValue(s))
  }

  /** `int.from_bytes(octets, 'big')` for four octets. */
  function FromOctets(a: nat, b: nat, c: nat, d: nat): (r: nat)
    requires a < 256 && b < 256 && c < 256 && d < 256
    ensures r <= AllOnes
  {
    ((a * 256 + b) * 256 + c) * 256 + d
  }

  /** `_ip_int_from_string`: a non-empty string of exactly four dot-separated octets. */
  function ParseAddress(s: string): (r: Option<nat>)
    ensures r.Some? ==> r.value <= AllOnes
  {
    if s == [] then None
    else
      var octets := Split(s, '.');
      if |octets| != 4 then None
      else
        match (ParseOctet(octets[0]), ParseOctet(octets[1]), ParseOctet(octets[2]), ParseOctet(octets[3]))
        case (Some(a), Some(b), Some(c), Some(d)) => Some(FromOctets(a, b, c, d))
        case _ => None
  }

  /** `_prefix_from_prefix_string`: ASCII digits (leading zeros allowed) denoting 0..32. */
  function ParsePrefixLength(s: string): (r: Option<nat>)
    ensures r.Some? ==> r.value <= 32
  {
    if s == [] || !AllDigits(s) then None
    else if DecimalValue(s) > 32 then None
    else Some(DecimalValue(s))
  }

  /** `m` is the netmask of prefix length `p`: p one bits followed by 32 - p zero bits. */
  predicate IsNetmask(m: nat, p: nat)
    requires p <= 32
  {
    m + BlockSize(p) == AllOnes + 1
  }

  /** `_prefix_from_ip_int`: the prefix length, searched from `p` up, whose netmask is `m`. */
  function NetmaskPrefix(m: nat, p: nat): (r: Option<nat>)
    requires p <= 33
    ensures r.Some? ==> p <= r.value <= 32 && IsNetmask(m, r.value)
    ensures r.None? ==> forall q :: p <= q <= 32 ==> !IsNetmask(m, q)
    decreases 33 - p
  {
    if p > 32 then None
    else if IsNetmask(m, p) then Some(p)
    else NetmaskPrefix(m, p + 1)
  }

  /**
   * `_make_netmask` on the text after '/': a prefix length, else a dotted-quad
   * netmask, else a dotted-quad hostmask (the bitwise complement of a netmask).
   */
  function ParseNetmask(s: string): (r: Option<nat>)
    ensures r.Some? ==> r.value <= 32
  {
    match ParsePrefixLength(s)
    case Some(p) => Some(p)
    case None =>
      match ParseAddress(s)
      case None => None
      case Some(m) => MaskPrefix(m)
  }

  /** `_make_netmask` on an address: its prefix length as a netmask, else as a hostmask. */
  function MaskPrefix(m: nat): (r: Option<nat>)
    requires m <= AllOnes
    ensures r.Some? ==> r.value <= 32 && (IsNetmask(m, r.value) || IsNetmask(AllOnes - m, r.value))
    ensures r.None? ==> forall q :: 0 <= q <= 32 ==> !IsNetmask(m, q) && !IsNetmask(AllOnes - m, q)
  {
    match NetmaskPrefix(m, 0)
    case Some(p) => Some(p)
    case None => NetmaskPrefix(AllOnes - m, 0)
  }

  /**
   * `ipaddress.IPv4Network(s)` with strict=True: split at '/', parse the
   * address, then the netmask (prefix length 32 when there is no '/'), then
   * refuse host bits.
   */
  function ParseNetwork(s: string): (r: Result<Network, CidrError>)
    ensures r.Success? ==> r.value.Valid()
  {
    var parts := Split(s, '/');
    if |parts| > 2 then Failure(AddressValueError)
    else
      match ParseAddress(parts[0])
      case None => Failure(AddressValueError)
      case Some(addr) =>
        match (if |parts| == 1 then Some(32) else ParseNetmask(parts[1]))
        case None => Failure(NetmaskValueError)
        case Some(p) =>
          if addr % BlockSize(p) != 0 then Failure(HostBitsSet)
          else Success(Network(addr, p))
  }

  // -------------------------------------------------------------------------
  // Canonical text, `str(network)`, and the parser's round trip

  /** `str(IPv4Address(a))`: four decimal octets separated by dots. */
  function FormatAddress(a: nat): string
    requires a <= AllOnes
  {
    var b := a / 256;
    var c := b / 256;
    Join([DecimalString(c / 256), DecimalString(c % 256), DecimalString(b % 256), DecimalString(a % 256)], '.')
  }

  /** `str(network)`: the network address, '/', the prefix length. */
  function FormatNetwork(n: Network): string
    requires n.Valid()
  {
    Join([FormatAddress(n.address), DecimalString(n.prefix)], '/')
  }

  lemma OctetRoundTrip(x: nat)
    requires x < 256
    ensures ParseOctet(DecimalString(x)) == Some(x)
  {
  }

  /** An octet is accepted exactly in its canonical decimal form, `str(x)` for some x below 256. */
  lemma OctetIsCanonical(s: string, x: nat)
    ensures ParseOctet(s) == Some(x) <==> x < 256 && s == DecimalString(x)
  {
    if x < 256 && s == DecimalString(x) {
      OctetRoundTrip(x);
    }
  }

  lemma NoSeparatorInDigits(s: string, sep: char)
    requires AllDigits(s) && !IsDigit(sep)
    ensures sep !in s
  {
  }

  lemma {:induction false} JoinOfDigitsHasNoSlash(parts: seq<string>)
    requires |parts| >= 1
    requires forall k :: 0 <= k < |parts| ==> AllDigits(parts[k])
    ensures '/' !in Join(parts, '.')
    decreases |parts|
  {
    NoSeparatorInDigits(parts[0], '/');
    if |parts| > 1 {
      JoinOfDigitsHasNoSlash(parts[1..]);
    }
  }

  /** Every address is read back from its dotted-quad text. */
  lemma AddressRoundTrip(a: nat)
    requires a <= AllOnes
    ensures ParseAddress(FormatAddress(a)) == Some(a)
  {
    var b := a / 256;
    var c := b / 256;
    var octets := [DecimalString(c / 256), DecimalString(c % 256), DecimalString(b % 256), DecimalString(a % 256)];
    forall k | 0 <= k < 4 ensures '.' !in octets[k] {
      NoSeparatorInDigits(octets[k], '.');
    }
    SplitJoin(octets, '.');
    assert FormatAddress(a) != [];
    OctetRoundTrip(c / 256);
    OctetRoundTrip(c % 256);
    OctetRoundTrip(b % 256);
    OctetRoundTrip(a % 256);
    assert FromOctets(c / 256, c % 256, b % 256, a % 256) == a;
  }

  /**
   * Strict parsing of "address/prefix": the text names a network exactly when
   * the address has no bit set below the prefix, and is refused with
   * `ValueError('... has host bits set')` otherwise.
   */
  lemma ParseAddressWithPrefix(a: nat, p: PrefixLength)
    requires a <= AllOnes
    ensures ParseNetwork(Join([FormatAddress(a), DecimalString(p)], '/')) ==
              if a % BlockSize(p) == 0 then Success(Network(a, p)) else Failure(HostBitsSet)
  {
    var b := a / 256;
    var c := b / 256;
    var octets := [DecimalString(c / 256), DecimalString(c % 256), DecimalString(b % 256), DecimalString(a % 256)];
    JoinOfDigitsHasNoSlash(octets);
    NoSeparatorInDigits(DecimalString(p), '/');
    SplitJoin([FormatAddress(a), DecimalString(p)], '/');
    AddressRoundTrip(a);
  }

  /** A bare address, with no '/', is the single-address network of prefix length 32. */
  lemma ParseBareAddress(a: nat)
    requires a <= AllOnes
    ensures ParseNetwork(FormatAddress(a)) == Success(Network(a, 32))
  {
    var b := a / 256;
    var c := b / 256;
    var octets := [DecimalString(c / 256), DecimalString(c % 256), DecimalString(b % 256), DecimalString(a % 256)];
    JoinOfDigitsHasNoSlash(octets);
    SplitJoin([FormatAddress(a)], '/');
    AddressRoundTrip(a);
    assert BlockSize(32) == 1;
  }

  /** Every valid network is read back from its canonical text. */
  lemma ParseFormatRoundTrip(n: Network)
    requires n.Valid()
    ensures ParseNetwork(FormatNetwork(n)) == Success(n)
  {
    ParseAddressWithPrefix(n.address, n.prefix);
  }

  /** Distinct prefix lengths have distinct block sizes. */
  lemma {:induction false} Pow2StrictlyMonotone(a: nat, b: nat)
    requires a < b
    ensures Pow2(a) < Pow2(b)
    decreases b
  {
    if a < b - 1 {
      Pow2StrictlyMonotone(a, b - 1);
    }
  }

  /** Only the one-address block has an odd size. */
  lemma OddBlockSize(p: PrefixLength)
    requires BlockSize(p) % 2 == 1
    ensures p == 32
  {
  }

  /** The search for a netmask's prefix length, started at or below its prefix length, finds it. */
  lemma {:induction false} NetmaskPrefixFinds(m: nat, q: nat, p: PrefixLength)
    requires q <= p && IsNetmask(m, p)
    ensures NetmaskPrefix(m, q) == Some(p)
    decreases p - q
  {
    if q < p {
      if IsNetmask(m, q) {
        Pow2StrictlyMonotone(32 - p, 32 - q);
        assert false;
      }
      NetmaskPrefixFinds(m, q + 1, p);
    }
  }

  /** A dotted quad is never a prefix length: it holds dots. */
  lemma DottedQuadIsNoPrefixLength(a: nat)
    requires a <= AllOnes
    ensures ParsePrefixLength(FormatAddress(a)) == None
  {
    var b := a / 256;
    var c := b / 256;
    var first := DecimalString(c / 256);
    var rest := [DecimalString(c % 256), DecimalString(b % 256), DecimalString(a % 256)];
    assert FormatAddress(a) == first + ['.'] + Join(rest, '.');
    assert FormatAddress(a)[|first|] == '.';
  }

  /** `_make_netmask` on a dotted quad reads it as a mask, never as a prefix length. */
  lemma ParseDottedQuadMask(m: nat)
    requires m <= AllOnes
    ensures ParseNetmask(FormatAddress(m)) == MaskPrefix(m)
  {
    DottedQuadIsNoPrefixLength(m);
    AddressRoundTrip(m);
  }

  /** The netmask with p leading one bits has prefix length p. */
  lemma NetmaskMaskPrefix(p: PrefixLength)
    ensures MaskPrefix(AllOnes + 1 - BlockSize(p)) == Some(p)
  {
    NetmaskPrefixFinds(AllOnes + 1 - BlockSize(p), 0, p);
  }

  /** `_make_netmask` on a dotted netmask: `a.b.c.d` with p leading one bits gives prefix length p. */
  lemma ParseDottedNetmask(p: PrefixLength)
    ensures ParseNetmask(FormatAddress(AllOnes + 1 - BlockSize(p))) == Some(p)
  {
    ParseDottedQuadMask(AllOnes + 1 - BlockSize(p));
    NetmaskMaskPrefix(p);
  }

  /** The hostmask of a prefix length strictly between 0 and 32 is no netmask. */
  lemma HostmaskIsNoNetmask(p: PrefixLength, q: PrefixLength)
    requires 0 < p < 32
    ensures !IsNetmask(BlockSize(p) - 1, q)
  {
    if IsNetmask(BlockSize(p) - 1, q) {
      assert BlockSize(p) == 2 * Pow2(32 - p - 1);
      OddBlockSize(q);
      Pow2StrictlyMonotone(32 - p, 32);
      Pow2Of32();
      assert false;
    }
  }

  /**
   * `_make_netmask` on a dotted hostmask: `a.b.c.d` with 32 - p trailing one
   * bits gives prefix length p, for 0 < p < 32. (At p = 0 and p = 32 the
   * hostmask is also a netmask, which is tried first.)
   */
  lemma ParseDottedHostmask(p: PrefixLength)
    requires 0 < p < 32
    ensures ParseNetmask(FormatAddress(BlockSize(p) - 1)) == Some(p)
  {
    ParseDottedQuadMask(BlockSize(p) - 1);
    HostmaskMaskPrefix(p);
  }

  /** The hostmask with 32 - p trailing one bits has prefix length p, for 0 < p < 32. */
  lemma HostmaskMaskPrefix(p: PrefixLength)
    requires 0 < p < 32
    ensures MaskPrefix(BlockSize(p) - 1) == Some(p)
  {
    HostmaskSearchFails(p);
    NetmaskPrefixFinds(AllOnes + 1 - BlockSize(p), 0, p);
  }

  /** Searched as a netmask, the hostmask of a prefix length strictly between 0 and 32 is not found. */
  lemma HostmaskSearchFails(p: PrefixLength)
    requires 0 < p < 32
    ensures NetmaskPrefix(BlockSize(p) - 1, 0) == None
  {
    var r := NetmaskPrefix(BlockSize(p) - 1, 0);
    if r.Some? {
      HostmaskIsNoNetmask(p, r.value);
    }
  }

  // -------------------------------------------------------------------------
  // The meaning of `in` and `overlaps`

  lemma MulMonotone(u: int, v: int, s: int)
    requires s >= 0 && u <= v
    ensures u * s <= v * s
  {
    assert v * s - u * s == (v - u) * s;
  }

  lemma MulCancelLess(u: int, v: int, s: int)
    requires s > 0 && u * s < v * s
    ensures u < v
  {
    if u >= v {
      MulMonotone(v, u, s);
    }
  }

  /** A block aligned to its size that starts below 2^32 ends below 2^32. */
  lemma BroadcastBound(address: nat, prefix: PrefixLength)
    ensures address <= AllOnes && address % BlockSize(prefix) == 0 ==>
              address + BlockSize(prefix) - 1 <= AllOnes
  {
    if address <= AllOnes && address % BlockSize(prefix) == 0 {
      BlockDividesSpace(prefix);
      AlignedEndBelow(address, BlockSize(prefix), AllOnes + 1);
    }
  }

  /** Every block size divides the size of the address space. */
  lemma BlockDividesSpace(prefix: PrefixLength)
    ensures (AllOnes + 1) % BlockSize(prefix) == 0
  {
    Pow2Add(prefix, 32 - prefix);
    Pow2Of32();
    ModOfAlignedPlus(Pow2(prefix), BlockSize(prefix), 0);
  }

  /** Below a multiple of s, a multiple of s is followed by s more values before it. */
  lemma AlignedEndBelow(a: int, s: int, top: int)
    requires s > 0 && a % s == 0 && top % s == 0 && 0 <= a < top
    ensures a + s <= top
  {
    var q, r := a / s, top / s;
    assert a == q * s;
    assert top == r * s;
    MulCancelLess(q, r, s);
    MulMonotone(q + 1, r, s);
  }

  /** The remainder of an aligned address plus an offset below the block size is that offset. */
  lemma ModOfAlignedPlus(q: int, s: int, k: int)
    requires s > 0 && 0 <= k < s
    ensures (q * s + k) % s == k
  {
    var x := q * s + k;
    var d := x / s - q;
    assert d * s == k - x % s;
    if d >= 1 {
      MulMonotone(1, d, s);
    } else if d <= -1 {
      MulMonotone(d, -1, s);
    }
  }

  /** `a in n` holds exactly for the addresses from the network address to the broadcast address. */
  lemma ContainsIsInterval(n: Network, a: nat)
    requires n.Valid()
    ensures n.Contains(a) <==> n.address <= a <= n.Broadcast()
  {
    AlignedWindow(n.address, BlockSize(n.prefix), a);
  }

  /** Rounding down to a multiple of s gives the aligned base exactly on the s addresses from it. */
  lemma AlignedWindow(base: int, s: int, a: int)
    requires s > 0 && base % s == 0
    ensures a - a % s == base <==> base <= a <= base + s - 1
  {
    if base <= a <= base + s - 1 {
      var q := base / s;
      assert base == q * s;
      ModOfAlignedPlus(q, s, a - base);
    }
  }

  /** `overlaps` is interval intersection, network and broadcast addresses included. */
  lemma OverlapsIsIntersection(x: Network, y: Network)
    requires x.Valid() && y.Valid()
    ensures x.Overlaps(y) <==> x.Intersects(y)
  {
    ContainsIsInterval(x, y.address);
    ContainsIsInterval(x, y.Broadcast());
    ContainsIsInterval(y, x.address);
    ContainsIsInterval(y, x.Broadcast());
  }

  lemma OverlapsSymmetric(x: Network, y: Network)
    ensures x.Overlaps(y) == y.Overlaps(x)
  {
  }

  lemma OverlapsReflexive(x: Network)
    requires x.Valid()
    ensures x.Overlaps(x)
  {
  }

  /**
   * Blocks [A*s, A*s + c*s - 1] and [b*s, b*s + s - 1], both aligned to s,
   * that intersect: the first contains the second.
   */
  lemma NestedMultiples(big: int, b: int, c: int, s: int)
    requires s > 0 && c >= 1
    requires big * s <= b * s + s - 1
    requires b * s <= big * s + c * s - 1
    ensures big * s <= b * s && b * s + s <= big * s + c * s
  {
    assert (b + 1) * s == b * s + s;
    MulCancelLess(big, b + 1, s);
    MulMonotone(big, b, s);
    assert (big + c) * s == big * s + c * s;
    MulCancelLess(b, big + c, s);
    MulMonotone(b + 1, big + c, s);
  }

  /** The same, for starts given as multiples of the block sizes, the larger size a multiple of the smaller. */
  lemma AlignedIntervalsNest(xa: nat, ya: nat, sx: nat, sy: nat, c: nat)
    requires sy > 0 && c >= 1 && sx == c * sy
    requires xa % sx == 0 && ya % sy == 0
    requires xa <= ya + sy - 1 && ya <= xa + sx - 1
    ensures xa <= ya && ya + sy <= xa + sx
  {
    var a := xa / sx;
    var big := a * c;
    assert xa == a * sx;
    assert xa == big * sy by {
      assert a * (c * sy) == (a * c) * sy;
    }
    var b := ya / sy;
    assert ya == b * sy;
    NestedMultiples(big, b, c, sy);
  }

  /** A block that meets a block at least as long as its own prefix contains it. */
  lemma AlignedBlocksNest(x: Network, y: Network)
    requires x.Valid() && y.Valid() && x.prefix <= y.prefix
    requires x.address <= y.Broadcast() && y.address <= x.Broadcast()
    ensures y.SubnetOf(x)
  {
    var c := Pow2(y.prefix - x.prefix);
    Pow2Add(y.prefix - x.prefix, 32 - y.prefix);
    assert BlockSize(x.prefix) == c * BlockSize(y.prefix);
    AlignedIntervalsNest(x.address, y.address, BlockSize(x.prefix), BlockSize(y.prefix), c);
  }

  /** Two CIDR blocks overlap exactly when one of them contains the other. */
  lemma OverlapsIffNested(x: Network, y: Network)
    requires x.Valid() && y.Valid()
    ensures x.Overlaps(y) <==> x.SubnetOf(y) || y.SubnetOf(x)
  {
    OverlapsIsIntersection(x, y);
    if x.Overlaps(y) {
      if x.prefix <= y.prefix {
        AlignedBlocksNest(x, y);
      } else {
        AlignedBlocksNest(y, x);
      }
    }
  }
}
