/**
  A CIDR block (section 3.1 of RFC 4632): an IPv4 address and a prefix length
  from 0 to 32. The block's per-octet masks, its inclusive lowest and highest
  addresses, its "N.N.N.N/M" notation, and the inverse construction of a block
  from a (low, high) pair of addresses.
 */
module Cidr {
  import opened Errors
  import opened Text
  import opened Bits
  import opened V4

  /** A prefix length: the number of leading one bits of the mask. */
  type Prefix = x: nat | x <= 32

  datatype CIDR = CIDR(addr: V4Address, bitmask: Prefix)

  /** The four octet masks, in the order `calcOctetMasks` returns them. */
  datatype OctetMasks = OctetMasks(o0m: nat, o1m: nat, o2m: nat, o3m: nat)

  /** The number of host bits: a block of prefix p holds 2^HostBits(p) addresses. */
  function HostBits(p: Prefix): nat
  {
    32 - p
  }

  /** The masks put back together as one 32-bit word, most significant first. */
  function MaskWord(m: OctetMasks): nat
  {
    BigEndian(m.o3m, m.o2m, m.o1m, m.o0m)
  }

  predicate MasksAreOctets(m: OctetMasks)
  {
    m.o0m < 256 && m.o1m < 256 && m.o2m < 256 && m.o3m < 256
  }

  /**
    `calcOctetMasks`: the word 2^32 - 2^(32 - p), whose top p bits are set,
    cut into its four bytes.
   */
  function CalcOctetMasks(b: CIDR): (m: OctetMasks)
    ensures MasksAreOctets(m)
    ensures MaskWord(m) + Pow2(HostBits(b.bitmask)) == Pow2(32)
  {
    var result := HighMask(32, HostBits(b.bitmask));
    Pow2Constants();
    BytesOfWord(result);
    OctetMasks(And(result, 255), And(Shr(result, 8), 255), And(Shr(result, 16), 255), Shr(result, 24))
  }

  /**
    `calcLow`: each octet of the address ANDed with its mask. The octets can
    only shrink, so the construction never fails and the panic is unreachable.
   */
  function CalcLow(b: CIDR, m: OctetMasks): (low: V4Address)
    ensures low.octet3 <= b.addr.octet3 && low.octet2 <= b.addr.octet2
    ensures low.octet1 <= b.addr.octet1 && low.octet0 <= b.addr.octet0
  {
    var a := b.addr;
    var r := NewV4AddressFromOctets(And(a.octet3, m.o3m), And(a.octet2, m.o2m), And(a.octet1, m.o1m), And(a.octet0, m.o0m));
    if r.Err? then
      assert false;
      a
    else
      r.value
  }

  /** Masking octet by octet is masking the whole address with the mask word. */
  lemma CalcLowOrdinal(b: CIDR, m: OctetMasks)
    requires MasksAreOctets(m)
    ensures Ordinal(CalcLow(b, m)) == And(Ordinal(b.addr), MaskWord(m))
  {
    var a := b.addr;
    BitOpBigEndian(AndOp, a.octet3, a.octet2, a.octet1, a.octet0, m.o3m, m.o2m, m.o1m, m.o0m);
  }

  /** The complement of a mask octet, ORed into an octet, stays an octet. */
  lemma OrComplement(o: nat, mask: nat)
    requires o < 256 && mask < 256
    ensures Xor(mask, 255) == 255 - mask
    ensures o <= Or(o, Xor(mask, 255)) < 256
  {
    Pow2Constants();
    XorOnes(mask, 8);
    BitOpBelow(OrOp, o, 255 - mask, 8);
  }

  /**
    `calcHigh`: each octet ORed with the complement of its mask. With masks
    that are octets, the complements are octets too, so the construction
    never fails and the panic is unreachable.
   */
  function CalcHigh(b: CIDR, m: OctetMasks): (high: V4Address)
    requires MasksAreOctets(m)
    ensures high.octet3 >= b.addr.octet3 && high.octet2 >= b.addr.octet2
    ensures high.octet1 >= b.addr.octet1 && high.octet0 >= b.addr.octet0
  {
    var a := b.addr;
    OrComplement(a.octet3, m.o3m);
    OrComplement(a.octet2, m.o2m);
    OrComplement(a.octet1, m.o1m);
    OrComplement(a.octet0, m.o0m);
    var r := NewV4AddressFromOctets(Or(a.octet3, Xor(m.o3m, 255)), Or(a.octet2, Xor(m.o2m, 255)),
                                    Or(a.octet1, Xor(m.o1m, 255)), Or(a.octet0, Xor(m.o0m, 255)));
    if r.Err? then
      assert false;
      a
    else
      r.value
  }

  /** ORing octet by octet is ORing the whole address with the complement of the mask word. */
  lemma CalcHighOrdinal(b: CIDR, m: OctetMasks)
    requires MasksAreOctets(m)
    ensures Ordinal(CalcHigh(b, m)) == Or(Ordinal(b.addr), 4294967295 - MaskWord(m))
  {
    var a := b.addr;
    var c3, c2, c1, c0 := 255 - m.o3m, 255 - m.o2m, 255 - m.o1m, 255 - m.o0m;
    assert CalcHigh(b, m) == V4Address(Or(a.octet3, c3), Or(a.octet2, c2), Or(a.octet1, c1), Or(a.octet0, c0)) by {
      OrComplement(a.octet3, m.o3m);
      OrComplement(a.octet2, m.o2m);
      OrComplement(a.octet1, m.o1m);
      OrComplement(a.octet0, m.o0m);
    }
    assert BigEndian(c3, c2, c1, c0) == 4294967295 - MaskWord(m);
    BitOpBigEndian(OrOp, a.octet3, a.octet2, a.octet1, a.octet0, c3, c2, c1, c0);
  }

  /**
    `ToRange`: the lowest and the highest address of the block. The lowest is
    the address with its host bits cleared; the block holds 2^(32 - p)
    consecutive addresses from there.
   */
  function ToRange(b: CIDR): (r: (V4Address, V4Address))
    ensures Ordinal(r.0) == Align(Ordinal(b.addr), HostBits(b.bitmask))
    ensures Ordinal(r.1) == Ordinal(r.0) + Pow2(HostBits(b.bitmask)) - 1
  {
    var m := CalcOctetMasks(b);
    RangeOrdinals(b, m);
    (CalcLow(b, m), CalcHigh(b, m))
  }

  lemma RangeOrdinals(b: CIDR, m: OctetMasks)
    requires m == CalcOctetMasks(b)
    ensures Ordinal(CalcLow(b, m)) == Align(Ordinal(b.addr), HostBits(b.bitmask))
    ensures Ordinal(CalcHigh(b, m)) == Align(Ordinal(b.addr), HostBits(b.bitmask)) + Pow2(HostBits(b.bitmask)) - 1
  {
    var x, h := Ordinal(b.addr), HostBits(b.bitmask);
    Pow2Constants();
    Pow2Monotone(h, 32);
    assert MaskWord(m) == HighMask(32, h);
    assert 4294967295 - MaskWord(m) == Pow2(h) - 1;
    AndHighMask(x, 32, h);
    CalcLowOrdinal(b, m);
    OrLowOnes(x, h);
    CalcHighOrdinal(b, m);
  }

  /**
    `NewCIDR`: "N.N.N.N/M". The text must split on '/' into exactly two
    tokens; the address is parsed first and its error wins.
   */
  function NewCidr(cidr: string): (r: Result<CIDR>)
    ensures |Split(cidr, '/')| != 2 ==> r == Err(CidrTokenCount)
    ensures r.Ok? <==> |Split(cidr, '/')| == 2 && NewV4Address(Split(cidr, '/')[0]).Ok?
                       && ParseBitmask(Split(cidr, '/')[1]).Ok?
    ensures r.Ok? ==> r.value == CIDR(NewV4Address(Split(cidr, '/')[0]).value, ParseBitmask(Split(cidr, '/')[1]).value)
    ensures |Split(cidr, '/')| == 2 && NewV4Address(Split(cidr, '/')[0]).Err? ==>
      r == Err(NewV4Address(Split(cidr, '/')[0]).error)
    ensures |Split(cidr, '/')| == 2 && NewV4Address(Split(cidr, '/')[0]).Ok? && r.Err? ==>
      r == Err(ParseBitmask(Split(cidr, '/')[1]).error)
  {
    var toks := Split(cidr, '/');
    if |toks| != 2 then Err(CidrTokenCount)
    else
      match NewV4Address(toks[0])
      case Err(e) => Err(e)
      case Ok(addr) =>
        match ParseBitmask(toks[1])
        case Err(e) => Err(e)
        case Ok(bitmask) => Ok(CIDR(addr, bitmask))
  }

  /**
    The prefix token of `NewCIDR`: `strconv.Atoi`, the conversion to `uint`,
    then the check against 32. A negative number wraps to a huge unsigned
    value and is rejected by that check.
   */
  function ParseBitmask(tok: string): (r: Result<Prefix>)
    ensures r.Ok? <==> Atoi(tok).Ok? && 0 <= Atoi(tok).value <= 32
    ensures r.Ok? ==> r.value == Atoi(tok).value
    ensures Atoi(tok).Err? ==> r == Err(Atoi(tok).error)
    ensures Atoi(tok).Ok? && r.Err? ==> r.error.InvalidBitmask? && r.error.value > 32
    ensures Atoi(tok).Ok? && Atoi(tok).value < 0 ==> r.Err? && r.error.value > MaxInt64
  {
    match Atoi(tok)
    case Err(e) => Err(e)
    case Ok(n) =>
      var u := ToUint(n);
      if u > 32 then Err(InvalidBitmask(u)) else Ok(u)
  }

  /** The number of addresses from low to high inclusive. */
  function Span(low: V4Address, high: V4Address): nat
    requires IpCount(low) <= IpCount(high)
  {
    IpCount(high) - IpCount(low) + 1
  }

  /**
    The prefix `NewCIDRFromRange` derives from a span of n addresses: 32 minus
    the whole part of log2(n), so that 2^(32 - p) is the largest power of two
    not above n.
   */
  function PrefixForSpan(n: nat): (p: Prefix)
    requires 1 <= n <= 4294967296
    ensures Pow2(HostBits(p)) <= n < 2 * Pow2(HostBits(p))
  {
    var log := FloorLog2(n);
    assert log <= 32 by {
      Pow2Constants();
      if log > 32 {
        Pow2Monotone(33, log);
      }
    }
    assert HostBits(32 - log) == log;
    32 - log
  }

  /**
    `NewCIDRFromRange`: the prefix for the span from low to high, and as
    address the lowest address of the block of that prefix around low.
    It never fails.
   */
  function NewCidrFromRange(low: V4Address, high: V4Address): (r: Result<CIDR>)
    requires IpCount(low) <= IpCount(high)
    ensures r.Ok?
    ensures Pow2(HostBits(r.value.bitmask)) <= Span(low, high) < 2 * Pow2(HostBits(r.value.bitmask))
    ensures r.value.addr == ToRange(CIDR(low, r.value.bitmask)).0
  {
    var mask := PrefixForSpan(Span(low, high));
    var block := CIDR(low, mask);
    Ok(CIDR(ToRange(block).0, mask))
  }

  /** `String`: the address in dotted decimal, '/', the prefix length. */
  function ToString(b: CIDR): string
  {
    V4.ToString(b.addr) + "/" + Decimal(b.bitmask)
  }

  // ---------------------------------------------------------------------------
  // The masks

  /** The mask word is p one bits followed by 32 - p zero bits. */
  lemma MaskShape(b: CIDR)
    ensures MaskWord(CalcOctetMasks(b)) == Shl(Pow2(b.bitmask) - 1, HostBits(b.bitmask))
  {
    var m := CalcOctetMasks(b);
    assert MaskWord(m) == HighMask(32, HostBits(b.bitmask));
    HighMaskIsShl(32, b.bitmask, HostBits(b.bitmask));
  }

  /** A /0 block has all masks zero. */
  lemma MaskOfPrefixZero(b: CIDR)
    requires b.bitmask == 0
    ensures CalcOctetMasks(b) == OctetMasks(0, 0, 0, 0)
  {
    var m := CalcOctetMasks(b);
    assert MaskWord(m) == 0 by {
      assert HostBits(b.bitmask) == 32;
      Pow2Constants();
    }
    ZeroWord(m.o3m, m.o2m, m.o1m, m.o0m);
  }

  lemma ZeroWord(b3: nat, b2: nat, b1: nat, b0: nat)
    requires BigEndian(b3, b2, b1, b0) == 0
    ensures b3 == 0 && b2 == 0 && b1 == 0 && b0 == 0
  {
  }

  /** A /32 block has all masks 255. */
  lemma MaskOfPrefixFull(b: CIDR)
    requires b.bitmask == 32
    ensures CalcOctetMasks(b) == OctetMasks(255, 255, 255, 255)
  {
    var m := CalcOctetMasks(b);
    assert Pow2(HostBits(b.bitmask)) == 1 by {
      assert HostBits(b.bitmask) == 0;
    }
    assert MaskWord(m) == 4294967295 by {
      Pow2Constants();
    }
    IpCountInjective(V4Address(m.o3m, m.o2m, m.o1m, m.o0m), V4Address(255, 255, 255, 255));
  }

  // ---------------------------------------------------------------------------
  // The range of a block

  /** The block holds its own address, and 2^(32 - p) addresses in all. */
  lemma ToRangeBounds(b: CIDR)
    ensures IpCount(ToRange(b).0) <= IpCount(b.addr) <= IpCount(ToRange(b).1)
    ensures IpCount(ToRange(b).1) - IpCount(ToRange(b).0) + 1 == Pow2(HostBits(b.bitmask))
  {
    var r := ToRange(b);
    BlockBounds(Ordinal(b.addr), HostBits(b.bitmask), Ordinal(r.0), Ordinal(r.1));
  }

  lemma BlockBounds(x: nat, h: nat, lo: nat, hi: nat)
    requires lo == Align(x, h) && hi == lo + Pow2(h) - 1
    ensures lo <= x <= hi && hi - lo + 1 == Pow2(h)
  {
  }

  /** The lowest address of a block is a multiple of the block size. */
  lemma ToRangeAligned(b: CIDR)
    ensures LowBits(Ordinal(ToRange(b).0), HostBits(b.bitmask)) == 0
  {
    AlignIdempotent(Ordinal(b.addr), HostBits(b.bitmask));
  }

  /** Two blocks of one prefix whose addresses round down alike have the same range. */
  lemma ToRangeOfAlign(b: CIDR, c: CIDR)
    requires b.bitmask == c.bitmask
    requires Align(Ordinal(b.addr), HostBits(b.bitmask)) == Align(Ordinal(c.addr), HostBits(c.bitmask))
    ensures ToRange(b) == ToRange(c)
  {
    var r, s := ToRange(b), ToRange(c);
    assert r.0 == s.0 by {
      IpCountInjective(r.0, s.0);
    }
    assert r.1 == s.1 by {
      IpCountInjective(r.1, s.1);
    }
  }

  /** Replacing a block's address by its lowest address changes nothing. */
  lemma ToRangeIdempotent(b: CIDR)
    ensures ToRange(CIDR(ToRange(b).0, b.bitmask)) == ToRange(b)
  {
    AlignIdempotent(Ordinal(b.addr), HostBits(b.bitmask));
    ToRangeOfAlign(b, CIDR(ToRange(b).0, b.bitmask));
  }

  /** Two blocks of one prefix have the same range exactly when their addresses agree above the host bits. */
  lemma SameBlock(b: CIDR, c: CIDR)
    requires b.bitmask == c.bitmask
    ensures ToRange(b) == ToRange(c) <==> Shr(Ordinal(b.addr), HostBits(b.bitmask)) == Shr(Ordinal(c.addr), HostBits(c.bitmask))
  {
    var x, y, h := Ordinal(b.addr), Ordinal(c.addr), HostBits(b.bitmask);
    assert ToRange(b) == ToRange(c) <==> Align(x, h) == Align(y, h) by {
      if Align(x, h) == Align(y, h) {
        ToRangeOfAlign(b, c);
      }
    }
    AlignSame(x, y, h);
  }

  // ---------------------------------------------------------------------------
  // From a range back to a block

  /** The range of any block gives that block back, based at its lowest address. */
  lemma FromRangeOfToRange(b: CIDR)
    ensures IpCount(ToRange(b).0) <= IpCount(ToRange(b).1)
    ensures NewCidrFromRange(ToRange(b).0, ToRange(b).1) == Ok(CIDR(ToRange(b).0, b.bitmask))
    ensures ToRange(NewCidrFromRange(ToRange(b).0, ToRange(b).1).value) == ToRange(b)
  {
    var (low, high) := ToRange(b);
    var h := HostBits(b.bitmask);
    assert Span(low, high) == Pow2(h);
    FloorLog2OfPow2(h);
    var c := NewCidrFromRange(low, high).value;
    assert c.bitmask == b.bitmask;
    ToRangeIdempotent(b);
  }

  /**
    For any range, the block found covers low, and holds at most as many
    addresses as the range and more than half as many.
   */
  lemma FromRangeCoversLow(low: V4Address, high: V4Address)
    requires IpCount(low) <= IpCount(high)
    ensures var c := NewCidrFromRange(low, high).value;
      IpCount(ToRange(c).0) <= IpCount(low) <= IpCount(ToRange(c).1)
      && IpCount(ToRange(c).1) - IpCount(ToRange(c).0) + 1 <= Span(low, high)
      < 2 * (IpCount(ToRange(c).1) - IpCount(ToRange(c).0) + 1)
  {
    var c := NewCidrFromRange(low, high).value;
    var d := CIDR(low, c.bitmask);
    ToRangeIdempotent(d);
    ToRangeBounds(d);
  }

  /** The range is reproduced exactly when it is the range of some block around low. */
  lemma FromRangeExact(low: V4Address, high: V4Address)
    requires IpCount(low) <= IpCount(high)
    ensures ToRange(NewCidrFromRange(low, high).value) == (low, high)
        <==> exists p: Prefix :: ToRange(CIDR(low, p)) == (low, high)
  {
    var c := NewCidrFromRange(low, high).value;
    if ToRange(c) == (low, high) {
      ToRangeIdempotent(CIDR(low, c.bitmask));
      assert ToRange(CIDR(low, c.bitmask)) == (low, high);
    } else {
      forall p: Prefix
        ensures ToRange(CIDR(low, p)) != (low, high)
      {
        if ToRange(CIDR(low, p)) == (low, high) {
          FromRangeOfToRange(CIDR(low, p));
        }
      }
    }
  }

  /**
    A range that is no block: from 0.0.0.1 to 0.0.0.2 (ordinals 1 and 2) the
    span is two addresses, so the prefix is 31; the /31 block around 0.0.0.1
    is 0.0.0.0 to 0.0.0.1, which holds neither more nor less than two
    addresses but misses 0.0.0.2.
   */
  lemma FromRangeMisaligned(low: V4Address, high: V4Address)
    requires Ordinal(low) == 1 && Ordinal(high) == 2
    ensures IpCount(low) <= IpCount(high)
    ensures NewCidrFromRange(low, high).value.bitmask == 31
    ensures Ordinal(NewCidrFromRange(low, high).value.addr) == 0
    ensures Ordinal(ToRange(NewCidrFromRange(low, high).value).1) == 1
  {
    var c := NewCidrFromRange(low, high).value;
    assert c.bitmask == 31 by {
      assert Span(low, high) == Pow2(1);
      FloorLog2OfPow2(1);
    }
    assert Ordinal(c.addr) == 0 by {
      assert HostBits(c.bitmask) == 1;
      AlignOfLowBit();
    }
    assert c == CIDR(c.addr, 31);
    SlashThirtyOneAtZero(c.addr);
  }

  lemma SlashThirtyOneAtZero(a: V4Address)
    requires Ordinal(a) == 0
    ensures Ordinal(ToRange(CIDR(a, 31)).1) == 1
  {
    AlignOfLowBit();
  }

  // ---------------------------------------------------------------------------
  // Notation

  /** The notation of a block splits on '/' into the address and the prefix. */
  lemma ToStringSplit(b: CIDR)
    ensures Split(ToString(b), '/') == [V4.ToString(b.addr), Decimal(b.bitmask)]
  {
    var toks := [V4.ToString(b.addr), Decimal(b.bitmask)];
    ToStringJoin(b.addr);
    assert '/' !in Decimal(b.bitmask) by {
      assert AllDigits(Decimal(b.bitmask));
    }
    assert toks[1..] == [Decimal(b.bitmask)];
    assert Join(toks, '/') == ToString(b);
    SplitJoin(toks, '/');
  }

  /** A negative prefix wraps to 2^64 less its magnitude and is rejected as that value. */
  lemma ParseBitmaskNegative(n: nat)
    requires 0 < n <= MaxInt64 + 1
    ensures ParseBitmask("-" + Decimal(n)) == Err(InvalidBitmask(0x1_0000_0000_0000_0000 - n))
  {
    AtoiNegative(n);
    ToUintNegative(n);
  }

  /** Parsing the notation of a block gives the block back. */
  lemma ParseToString(b: CIDR)
    ensures NewCidr(ToString(b)) == Ok(b)
  {
    ToStringSplit(b);
    V4.ParseToString(b.addr);
    AtoiDecimal(b.bitmask);
  }

  /** Every prefix length from 0 to 32 is accepted. */
  lemma EveryPrefixAccepted(p: nat)
    requires p <= 32
    ensures ParseBitmask(Decimal(p)) == Ok(p)
  {
    AtoiDecimal(p);
  }
}
