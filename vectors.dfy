/**
  Particular blocks and addresses: the notation the library parses, the
  ranges it computes and the errors it reports for them.
 */
module Vectors {
  import opened Errors
  import opened Text
  import opened Bits
  import opened V4
  import opened Cidr

  // ---------------------------------------------------------------------------
  // Helpers

  /**
    The range of a block, given the ordinals of its ends: the block's address
    rounded down to a multiple of its size, and that plus the size less one.
   */
  lemma RangeFromOrdinals(b: CIDR, low: V4Address, high: V4Address)
    requires Ordinal(low) == Ordinal(b.addr) - Ordinal(b.addr) % Pow2(HostBits(b.bitmask))
    requires Ordinal(high) == Ordinal(low) + Pow2(HostBits(b.bitmask)) - 1
    ensures ToRange(b) == (low, high)
  {
    ShrIsDiv(Ordinal(b.addr), HostBits(b.bitmask));
    IpCountInjective(ToRange(b).0, low);
    IpCountInjective(ToRange(b).1, high);
  }

  /** Digits, with or without a minus sign, hold no separator. */
  lemma NoSeparator(n: nat, sep: char)
    requires !IsDigit(sep) && sep != '-'
    ensures sep !in Decimal(n) && sep !in "-" + Decimal(n)
  {
    assert AllDigits(Decimal(n));
  }

  /** The notation of an address followed by '/' and a token splits into those two. */
  lemma SplitAddress(a: V4Address, tok: string)
    requires '/' !in tok
    ensures Split(V4.ToString(a) + "/" + tok, '/') == [V4.ToString(a), tok]
  {
    ToStringJoin(a);
    SplitAfterPiece(V4.ToString(a), tok, '/');
    SplitWithoutSeparator(tok, '/');
  }

  lemma ParseOctetDecimal(o: Octet)
    ensures ParseOctet(Decimal(o)) == Ok(o)
  {
    AtoiDecimal(o);
  }

  lemma ParseOctetLarge(n: nat)
    requires 255 < n <= MaxInt64
    ensures ParseOctet(Decimal(n)) == Err(InvalidOctet(n))
  {
    AtoiDecimal(n);
  }

  lemma ParseBitmaskLarge(n: nat)
    requires 32 < n <= MaxInt64
    ensures ParseBitmask(Decimal(n)) == Err(InvalidBitmask(n))
  {
    AtoiDecimal(n);
  }

  // ---------------------------------------------------------------------------
  // Blocks in their notation

  lemma ParseSlash24()
    ensures NewCidr("192.168.1.0/24") == Ok(CIDR(V4Address(192, 168, 1, 0), 24))
  {
    var b := CIDR(V4Address(192, 168, 1, 0), 24);
    assert Decimal(192) == "192" by { assert Decimal(19) == "19"; }
    assert Decimal(168) == "168" by { assert Decimal(16) == "16"; }
    assert Decimal(24) == "24";
    assert Cidr.ToString(b) == "192.168.1.0/24";
    Cidr.ParseToString(b);
  }

  lemma ParseSlash0()
    ensures NewCidr("0.0.0.0/0") == Ok(CIDR(V4Address(0, 0, 0, 0), 0))
  {
    var b := CIDR(V4Address(0, 0, 0, 0), 0);
    assert Cidr.ToString(b) == "0.0.0.0/0";
    Cidr.ParseToString(b);
  }

  lemma ParseSlash32()
    ensures NewCidr("192.168.1.5/32") == Ok(CIDR(V4Address(192, 168, 1, 5), 32))
  {
    var b := CIDR(V4Address(192, 168, 1, 5), 32);
    assert Decimal(192) == "192" by { assert Decimal(19) == "19"; }
    assert Decimal(168) == "168" by { assert Decimal(16) == "16"; }
    assert Decimal(32) == "32";
    assert Cidr.ToString(b) == "192.168.1.5/32";
    Cidr.ParseToString(b);
  }

  lemma ParseSlash8()
    ensures NewCidr("10.0.0.0/8") == Ok(CIDR(V4Address(10, 0, 0, 0), 8))
  {
    var b := CIDR(V4Address(10, 0, 0, 0), 8);
    assert Decimal(10) == "10";
    assert Cidr.ToString(b) == "10.0.0.0/8";
    Cidr.ParseToString(b);
  }

  // ---------------------------------------------------------------------------
  // Their ranges

  /** Every 192.168.1.x/24 is 192.168.1.0 to 192.168.1.255. */
  lemma RangeOfSlash24(b: CIDR)
    requires b.addr.octet3 == 192 && b.addr.octet2 == 168 && b.addr.octet1 == 1
    requires b.bitmask == 24
    ensures ToRange(b) == (V4Address(192, 168, 1, 0), V4Address(192, 168, 1, 255))
  {
    Pow2Constants();
    assert HostBits(b.bitmask) == 8;
    RangeFromOrdinals(b, V4Address(192, 168, 1, 0), V4Address(192, 168, 1, 255));
  }

  /** Every /0 is the whole address space. */
  lemma RangeOfSlash0(b: CIDR)
    requires b.bitmask == 0
    ensures ToRange(b) == (V4Address(0, 0, 0, 0), V4Address(255, 255, 255, 255))
  {
    Pow2Constants();
    assert HostBits(b.bitmask) == 32;
    RangeFromOrdinals(b, V4Address(0, 0, 0, 0), V4Address(255, 255, 255, 255));
  }

  /** Every /32 is its one address. */
  lemma RangeOfSlash32(b: CIDR)
    requires b.bitmask == 32
    ensures ToRange(b) == (b.addr, b.addr)
  {
    assert HostBits(b.bitmask) == 0;
    RangeFromOrdinals(b, b.addr, b.addr);
  }

  /** Every 10.x.x.x/8 is 10.0.0.0 to 10.255.255.255. */
  lemma RangeOfSlash8(b: CIDR)
    requires b.addr.octet3 == 10
    requires b.bitmask == 8
    ensures ToRange(b) == (V4Address(10, 0, 0, 0), V4Address(10, 255, 255, 255))
  {
    Pow2Constants();
    assert HostBits(b.bitmask) == 24;
    RangeFromOrdinals(b, V4Address(10, 0, 0, 0), V4Address(10, 255, 255, 255));
  }

  /** The range 192.168.1.0 to 192.168.1.255 is the block 192.168.1.0/24. */
  lemma FromRangeSlash24(low: V4Address, high: V4Address)
    requires low.octet3 == 192 && low.octet2 == 168 && low.octet1 == 1 && low.octet0 == 0
    requires high.octet3 == 192 && high.octet2 == 168 && high.octet1 == 1 && high.octet0 == 255
    ensures IpCount(low) <= IpCount(high)
    ensures NewCidrFromRange(low, high) == Ok(CIDR(low, 24))
  {
    RangeOfSlash24(CIDR(low, 24));
    IpCountInjective(high, V4Address(192, 168, 1, 255));
    FromRangeOfToRange(CIDR(low, 24));
  }

  // ---------------------------------------------------------------------------
  // Errors

  /** Three dotted parts are not an address. */
  lemma ThreeParts()
    ensures NewV4Address("1.2.3") == Err(AddressTokenCount)
  {
  }

  /** Five dotted parts before the '/' are not an address either. */
  lemma FiveParts()
    ensures Join(["1.2.3.4.5", "24"], '/') == "1.2.3.4.5/24"
    ensures NewCidr(Join(["1.2.3.4.5", "24"], '/')) == Err(AddressTokenCount)
  {
    SplitJoin(["1.2.3.4.5", "24"], '/');
    assert |Split("1.2.3.4.5", '.')| == 5;
  }

  /** An address alone is not a block: the '/' is required. */
  lemma NoSlash(a: V4Address)
    ensures NewCidr(V4.ToString(a)) == Err(CidrTokenCount)
  {
    ToStringJoin(a);
    SplitWithoutSeparator(V4.ToString(a), '/');
  }

  /** A prefix above 32, such as 33, is reported with its value. */
  lemma PrefixAboveThirtyTwo(a: V4Address, n: nat)
    requires 32 < n <= MaxInt64
    ensures NewCidr(V4.ToString(a) + "/" + Decimal(n)) == Err(InvalidBitmask(n))
  {
    NoSeparator(n, '/');
    SplitAddress(a, Decimal(n));
    V4.ParseToString(a);
    ParseBitmaskLarge(n);
  }

  /** A negative prefix, such as -1, is reported as its unsigned wrap-around. */
  lemma PrefixNegative(a: V4Address, n: nat)
    requires 0 < n <= MaxInt64 + 1
    ensures NewCidr(V4.ToString(a) + "/" + ("-" + Decimal(n))) == Err(InvalidBitmask(0x1_0000_0000_0000_0000 - n))
  {
    NoSeparator(n, '/');
    SplitAddress(a, "-" + Decimal(n));
    V4.ParseToString(a);
    ParseBitmaskNegative(n);
  }

  /** A negative last octet is reported as its unsigned wrap-around. */
  lemma OctetNegative(o3: Octet, o2: Octet, o1: Octet, n: nat)
    requires 0 < n <= MaxInt64 + 1
    ensures NewV4Address(Join([Decimal(o3), Decimal(o2), Decimal(o1), "-" + Decimal(n)], '.'))
         == Err(InvalidOctet(0x1_0000_0000_0000_0000 - n))
  {
    NoSeparator(o3, '.');
    NoSeparator(o2, '.');
    NoSeparator(o1, '.');
    NoSeparator(n, '.');
    DottedTokens(Decimal(o3), Decimal(o2), Decimal(o1), "-" + Decimal(n));
    ParseOctetNegative(n);
  }

  /** A first octet above 255, such as 256, is reported with its value. */
  lemma OctetAboveByte(n: nat, o2: Octet, o1: Octet, o0: Octet)
    requires 255 < n <= MaxInt64
    ensures NewV4Address(Join([Decimal(n), Decimal(o2), Decimal(o1), Decimal(o0)], '.')) == Err(InvalidOctet(n))
  {
    NoSeparator(n, '.');
    NoSeparator(o2, '.');
    NoSeparator(o1, '.');
    NoSeparator(o0, '.');
    DottedTokens(Decimal(n), Decimal(o2), Decimal(o1), Decimal(o0));
    ParseOctetDecimal(o0);
    ParseOctetDecimal(o1);
    ParseOctetDecimal(o2);
    ParseOctetLarge(n);
  }

  /**
    The tokens are read from the last: the syntax error of the last token is
    reported, not the out-of-range first one.
   */
  lemma LastTokenFirst()
    ensures Join(["256", "1", "2", "x"], '.') == "256.1.2.x"
    ensures NewV4Address(Join(["256", "1", "2", "x"], '.')) == Err(NumSyntax("x"))
  {
    SplitJoin(["256", "1", "2", "x"], '.');
    assert ParseOctet("x") == Err(NumSyntax("x")) by {
      assert Atoi("x") == Err(NumSyntax("x"));
    }
  }
}
