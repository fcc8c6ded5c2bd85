/** Contiguous netmasks (section 3.1 of RFC 4632), interior host ranges, and the host iterator. */
module Ipv4Subnet {
  import opened Bits
  import opened Octets
  import opened Wrappers

  const ADDRESS_WIDTH: nat := 32
  const U32_MODULUS: nat := 0x1_0000_0000
  const U32_MAX: u32 := 0xFFFF_FFFF

  datatype SubnetError =
    | NetmaskInvalid(netmask: u32)
    | PrefixUnsupported(prefixLength: nat)
    | FirstHostOverflow
    | LastHostOverflow
    | NoUsableHost

  // ----- netmasks

  lemma WidthsAgree()
    ensures Pow2(ADDRESS_WIDTH) == U32_MODULUS
  {
    Pow2Values();
  }

  function InvertedMask(mask: u32): (r: u32)
    ensures r == U32_MAX - mask
  {
    WidthsAgree();
    Not(ADDRESS_WIDTH, mask)
  }

  function PrefixLengthFromNetmask(mask: u32): Result<nat, SubnetError> {
    WidthsAgree();
    var inverted := InvertedMask(mask);
    if inverted == 0 then Success(32) else
    var powerOfTwoHostSpace := (inverted + 1) % U32_MODULUS;
    if And(ADDRESS_WIDTH, inverted, powerOfTwoHostSpace) != 0 then Failure(NetmaskInvalid(mask))
    else Success(LeadingOnes(ADDRESS_WIDTH, mask))
  }

  function NetmaskFromPrefixLength(prefixLength: u8): (mask: u32) {
    WidthsAgree();
    if prefixLength == 0 then 0
    else if prefixLength == 32 then U32_MAX
    else
      var hostBitCount := if prefixLength <= 32 then 32 - prefixLength else 0;
      ShiftLeft(ADDRESS_WIDTH, U32_MAX, hostBitCount)
  }

  /** The number of addresses a prefix leaves to the host part. */
  function HostSpace(prefixLength: nat): (n: nat)
    requires prefixLength <= 32
    ensures 1 <= n <= U32_MODULUS
  {
    WidthsAgree();
    Pow2Monotone(ADDRESS_WIDTH - prefixLength, ADDRESS_WIDTH);
    Pow2(ADDRESS_WIDTH - prefixLength)
  }

  /** A prefix of length `p` has a mask of `p` ones; longer prefixes than 32 act as 32. */
  lemma NetmaskValue(prefixLength: u8)
    ensures NetmaskFromPrefixLength(prefixLength)
      == U32_MODULUS - HostSpace(if prefixLength <= 32 then prefixLength else 32)
  {
    hide ShiftLeft, Pow2;
    WidthsAgree();
    Pow2Zero();
    var hostBitCount := if prefixLength <= 32 then 32 - prefixLength else 0;
    ShiftedHighOnes(ADDRESS_WIDTH, U32_MAX, 0, hostBitCount);
  }

  /** The `inverted & (inverted + 1)` test passes exactly for the masks of prefixes 0 to 32. */
  lemma NetmaskTestIsExact(mask: u32)
    ensures PrefixLengthFromNetmask(mask).Success? <==> exists p: u8 :: p <= 32 && mask == NetmaskFromPrefixLength(p)
  {
    hide NetmaskFromPrefixLength, PrefixLengthFromNetmask, HasHostBits;
    NetmaskShape(ADDRESS_WIDTH, mask);
    if k: nat :| HasHostBits(ADDRESS_WIDTH, mask, k) {
      MaskWithHostBits(mask, k);
      assert mask == NetmaskFromPrefixLength(ADDRESS_WIDTH - k);
    }
    if p: u8 :| p <= 32 && mask == NetmaskFromPrefixLength(p) {
      MaskWithHostBits(mask, ADDRESS_WIDTH - p);
      assert HasHostBits(ADDRESS_WIDTH, mask, ADDRESS_WIDTH - p);
    }
  }

  /** The mask is ones down to its low `k` bits, which are zeros. */
  predicate HasHostBits(width: nat, mask: u32, k: nat) {
    k <= width && mask + Pow2(k) == Pow2(width)
  }

  lemma MaskWithHostBits(mask: u32, k: nat)
    ensures HasHostBits(ADDRESS_WIDTH, mask, k)
      <==> k <= ADDRESS_WIDTH && mask == NetmaskFromPrefixLength(ADDRESS_WIDTH - k)
  {
    hide NetmaskFromPrefixLength, Pow2;
    WidthsAgree();
    if k <= ADDRESS_WIDTH {
      NetmaskValue(ADDRESS_WIDTH - k);
    }
  }

  lemma NetmaskShape(width: nat, mask: u32)
    requires width == ADDRESS_WIDTH
    ensures PrefixLengthFromNetmask(mask).Success? <==> exists k: nat :: HasHostBits(width, mask, k)
  {
    hide And, LeadingOnes, Not, Pow2;
    WidthsAgree();
    Pow2Zero();
    var inverted := InvertedMask(mask);
    if inverted == 0 {
      assert HasHostBits(width, mask, 0);
    } else if inverted == U32_MAX {
      AndWithZero(width, inverted);
      assert HasHostBits(width, mask, width);
    } else {
      AndSuccessor(width, inverted);
      if k: nat :| k < width && inverted + 1 == Pow2(k) {
        assert HasHostBits(width, mask, k);
      }
      if k: nat :| HasHostBits(width, mask, k) {
        assert k != width && inverted + 1 == Pow2(k);
      }
    }
  }

  /** Prefix to mask to prefix, and mask to prefix to mask, are identities. */
  lemma NetmaskRoundTrip(prefixLength: u8, mask: u32)
    requires prefixLength <= 32
    ensures PrefixLengthFromNetmask(NetmaskFromPrefixLength(prefixLength)) == Success(prefixLength)
    ensures PrefixLengthFromNetmask(mask).Success? ==>
      PrefixLengthFromNetmask(mask).value <= 32 && NetmaskFromPrefixLength(PrefixLengthFromNetmask(mask).value) == mask
  {
    PrefixOfNetmask(prefixLength);
    if PrefixLengthFromNetmask(mask).Success? {
      NetmaskTestIsExact(mask);
      var p: u8 :| p <= 32 && mask == NetmaskFromPrefixLength(p);
      PrefixOfNetmask(p);
    }
  }

  lemma PrefixOfNetmask(prefixLength: u8)
    requires prefixLength <= 32
    ensures PrefixLengthFromNetmask(NetmaskFromPrefixLength(prefixLength)) == Success(prefixLength)
  {
    hide NetmaskFromPrefixLength, LeadingOnes, And;
    var mask := NetmaskFromPrefixLength(prefixLength);
    NetmaskTestIsExact(mask);
    NetmaskValue(prefixLength);
    WidthsAgree();
    LeadingOnesOfHighMask(ADDRESS_WIDTH, ADDRESS_WIDTH - prefixLength, mask);
    if prefixLength < 32 {
      Pow2Grows(0, ADDRESS_WIDTH - prefixLength);
    }
  }

  // ----- interior host range

  function NetworkBits(address: u32, mask: u32): u32 {
    And(ADDRESS_WIDTH, address, mask)
  }

  function BroadcastBits(address: u32, mask: u32): u32 {
    WidthsAgree();
    Or(ADDRESS_WIDTH, NetworkBits(address, mask), InvertedMask(mask))
  }

  function InteriorHostRange(address: u32, mask: u32): Result<(u32, u32), SubnetError> {
    var prefixLength :- PrefixLengthFromNetmask(mask);
    if prefixLength >= 31 then Failure(PrefixUnsupported(prefixLength)) else
    var networkBits := NetworkBits(address, mask);
    var broadcastBits := BroadcastBits(address, mask);
    if networkBits == U32_MAX then Failure(FirstHostOverflow) else
    if broadcastBits == 0 then Failure(LastHostOverflow) else
    var (firstHostBits, lastHostBits) := (networkBits + 1, broadcastBits - 1);
    if firstHostBits > lastHostBits then Failure(NoUsableHost) else Success((firstHostBits, lastHostBits))
  }

  /** Network and broadcast address of a prefix, as arithmetic. */
  lemma EdgesOfSubnet(address: u32, prefixLength: u8)
    requires prefixLength <= 32
    ensures var mask, space := NetmaskFromPrefixLength(prefixLength), HostSpace(prefixLength);
      && NetworkBits(address, mask) == address - address % space
      && BroadcastBits(address, mask) == address - address % space + space - 1
  {
    hide And, Or, Not, NetmaskFromPrefixLength, Pow2;
    WidthsAgree();
    NetmaskValue(prefixLength);
    EdgeArithmetic(ADDRESS_WIDTH, address, ADDRESS_WIDTH - prefixLength, NetmaskFromPrefixLength(prefixLength));
  }

  lemma EdgeArithmetic(width: nat, address: nat, k: nat, mask: nat)
    requires k <= width && mask + Pow2(k) == Pow2(width) && address < Pow2(width)
    ensures And(width, address, mask) == address - address % Pow2(k)
    ensures Or(width, And(width, address, mask), Pow2(k) - 1) == address - address % Pow2(k) + Pow2(k) - 1
  {
    hide And, Or, Pow2;
    AndHighMask(width, address, k, mask);
    BlockFits(width, address, k);
    OrDisjoint(width, address - address % Pow2(k), Pow2(k) - 1, k);
  }

  /**
   A range exists exactly for the masks of prefixes up to 30, and then it is everything strictly
   between network and broadcast. The overflow and empty-range errors are never returned.
   */
  lemma InteriorRangeIsExact(address: u32, mask: u32)
    ensures match InteriorHostRange(address, mask)
      case Success((first, last)) =>
        && exists p: u8 :: p <= 30 && mask == NetmaskFromPrefixLength(p)
             && first == address - address % HostSpace(p) + 1
             && last == first + HostSpace(p) - 3
             && HostSpace(p) >= 4
             && first == NetworkBits(address, mask) + 1 && last == BroadcastBits(address, mask) - 1
      case Failure(NetmaskInvalid(m)) => m == mask && forall p: u8 :: p <= 32 ==> mask != NetmaskFromPrefixLength(p)
      case Failure(PrefixUnsupported(p)) => p in {31, 32} && mask == NetmaskFromPrefixLength(p)
      case Failure(_) => false
  {
    hide PrefixLengthFromNetmask, NetmaskFromPrefixLength, NetworkBits, BroadcastBits;
    NetmaskTestIsExact(mask);
    if PrefixLengthFromNetmask(mask).Success? {
      NetmaskRoundTrip(0, mask);
      var p: u8 := PrefixLengthFromNetmask(mask).value;
      EdgesOfSubnet(address, p);
      if p <= 30 {
        Pow2Values();
        if p < 30 {
          Pow2Grows(2, ADDRESS_WIDTH - p);
        }
        assert p <= 30 && mask == NetmaskFromPrefixLength(p);
      }
    } else {
      InvalidMaskError(mask);
    }
  }

  lemma InvalidMaskError(mask: u32)
    requires PrefixLengthFromNetmask(mask).Failure?
    ensures PrefixLengthFromNetmask(mask) == Failure(NetmaskInvalid(mask))
  {
  }

  // ----- the two interior tests

  predicate IsStrictlyInside(candidate: u32, networkBits: u32, broadcastBits: u32) {
    candidate > networkBits && candidate < broadcastBits
  }

  /** `validate_strict_interior_scan_target_ipv4_address`, its error reduced to "rejected". */
  function ValidateTarget(target: u32, address: u32, mask: u32): Result<bool, SubnetError> {
    var (first, last) :- InteriorHostRange(address, mask);
    Success(!(target < first || target > last))
  }

  // ----- host iterator

  function HostsBetween(next: Option<u32>, last: u32): seq<u32> {
    match next
    case None => []
    case Some(first) =>
      if first > last then [] else seq(last - first + 1, i requires 0 <= i <= last - first => first + i)
  }

  class HostAddressIterator {
    var nextHostBits: Option<u32>
    const lastHostBits: u32

    ghost predicate Valid()
      reads this
    {
      nextHostBits.Some? ==> nextHostBits.value <= lastHostBits
    }

    /** The addresses still to come. */
    ghost function Remaining(): seq<u32>
      reads this
    {
      HostsBetween(nextHostBits, lastHostBits)
    }

    constructor (first: u32, last: u32)
      requires first <= last
      ensures Valid() && Remaining() == HostsBetween(Some(first), last)
    {
      nextHostBits := Some(first);
      lastHostBits := last;
    }

    method Next() returns (item: Option<u32>)
      requires Valid()
      modifies this
      ensures Valid()
      ensures old(Remaining()) == [] ==> item == None && Remaining() == []
      ensures old(Remaining()) != [] ==> item == Some(old(Remaining())[0]) && Remaining() == old(Remaining())[1..]
    {
      if nextHostBits.None? {
        return None;
      }
      var currentBits := nextHostBits.value;
      item := Some(currentBits);
      if currentBits == lastHostBits {
        nextHostBits := None;
      } else {
        nextHostBits := Some(currentBits + 1);
      }
    }

    /** Both bounds of `size_hint`; a span of at most 2^32 always fits a 64-bit `usize`. */
    method SizeHint() returns (lower: nat, upper: Option<nat>)
      requires Valid()
      ensures lower == |Remaining()| && upper == Some(|Remaining()|)
    {
      if nextHostBits.None? {
        return 0, Some(0);
      }
      var span := lastHostBits - nextHostBits.value + 1;
      return span, Some(span);
    }
  }

  method TryFromAddressOnSubnet(address: u32, mask: u32) returns (r: Result<HostAddressIterator, SubnetError>)
    ensures match r
      case Success(hosts) =>
        && fresh(hosts) && hosts.Valid()
        && InteriorHostRange(address, mask).Success?
        && var (first, last) := InteriorHostRange(address, mask).value;
        && hosts.Remaining() == HostsBetween(Some(first), last)
      case Failure(e) => InteriorHostRange(address, mask) == Failure(e)
  {
    hide InteriorHostRange;
    RangeIsOrdered(address, mask);
    var range := InteriorHostRange(address, mask);
    if range.Failure? {
      return Failure(range.error);
    }
    var hosts := new HostAddressIterator(range.value.0, range.value.1);
    return Success(hosts);
  }

  lemma RangeIsOrdered(address: u32, mask: u32)
    ensures InteriorHostRange(address, mask).Success? ==>
      InteriorHostRange(address, mask).value.0 <= InteriorHostRange(address, mask).value.1
  {
    hide PrefixLengthFromNetmask, NetworkBits, BroadcastBits;
  }

  /**
   On every subnet the iterator accepts, it yields each address strictly between network and
   broadcast once, ascending: 2^(32 - p) - 2 of them, exactly those both interior tests admit.
   */
  lemma HostsAreTheInterior(address: u32, mask: u32)
    requires InteriorHostRange(address, mask).Success?
    ensures var (first, last) := InteriorHostRange(address, mask).value;
      var hosts := HostsBetween(Some(first), last);
      && (exists p: u8 :: p <= 30 && mask == NetmaskFromPrefixLength(p) && |hosts| == HostSpace(p) - 2)
      && (forall i, j :: 0 <= i < j < |hosts| ==> hosts[i] < hosts[j])
      && (forall x: u32 ::
            && (x in hosts <==> IsStrictlyInside(x, NetworkBits(address, mask), BroadcastBits(address, mask)))
            && (x in hosts <==> ValidateTarget(x, address, mask) == Success(true)))
  {
    hide InteriorHostRange, NetworkBits, BroadcastBits, NetmaskFromPrefixLength, HostSpace;
    InteriorRangeIsExact(address, mask);
    var (first, last) := InteriorHostRange(address, mask).value;
    var hosts := HostsBetween(Some(first), last);
    var p: u8 :| p <= 30 && mask == NetmaskFromPrefixLength(p)
      && first == address - address % HostSpace(p) + 1
      && last == first + HostSpace(p) - 3
      && HostSpace(p) >= 4
      && first == NetworkBits(address, mask) + 1 && last == BroadcastBits(address, mask) - 1;
    assert |hosts| == HostSpace(p) - 2;
    forall x: u32
      ensures x in hosts <==> first <= x <= last
    {
      if first <= x <= last {
        assert hosts[x - first] == x;
      }
    }
  }
}
