/**
  An IPv4 address as four octets, most significant first, built from four
  unsigned values or parsed from dotted-decimal text ("N.N.N.N"), with its
  position in the 2^32 address space and its dotted-decimal rendering.
 */
module V4 {
  import opened Errors
  import opened Text
  import opened Bits

  /** An octet value: every field of a constructed address is at most 255. */
  type Octet = x: nat | x < 256

  /** octet3 is the most significant octet: the first one written. */
  datatype V4Address = V4Address(octet3: Octet, octet2: Octet, octet1: Octet, octet0: Octet)

  /** The address's position in the 32-bit address space. */
  function Ordinal(a: V4Address): nat
  {
    BigEndian(a.octet3, a.octet2, a.octet1, a.octet0)
  }

  /** Lexicographic order of the octets, most significant first. */
  predicate OctetsBefore(a: V4Address, b: V4Address)
  {
    || a.octet3 < b.octet3
    || (a.octet3 == b.octet3 && a.octet2 < b.octet2)
    || (a.octet3 == b.octet3 && a.octet2 == b.octet2 && a.octet1 < b.octet1)
    || (a.octet3 == b.octet3 && a.octet2 == b.octet2 && a.octet1 == b.octet1 && a.octet0 < b.octet0)
  }

  /**
    `NewV4AddressFromOctets`: the arguments in order of significance; fails on
    the first one (from the most significant) that is above 255.
   */
  function NewV4AddressFromOctets(octet3: nat, octet2: nat, octet1: nat, octet0: nat): (r: Result<V4Address>)
    ensures r.Ok? <==> octet3 <= 255 && octet2 <= 255 && octet1 <= 255 && octet0 <= 255
    ensures r.Ok? ==> r.value == V4Address(octet3, octet2, octet1, octet0)
    ensures r.Err? ==> r.error.InvalidOctet? && r.error.value > 255
    ensures r.Err? ==> r.error.value in {octet3, octet2, octet1, octet0}
    ensures octet3 > 255 ==> r == Err(InvalidOctet(octet3))
    ensures octet3 <= 255 && octet2 > 255 ==> r == Err(InvalidOctet(octet2))
    ensures octet3 <= 255 && octet2 <= 255 && octet1 > 255 ==> r == Err(InvalidOctet(octet1))
    ensures octet3 <= 255 && octet2 <= 255 && octet1 <= 255 && octet0 > 255 ==> r == Err(InvalidOctet(octet0))
  {
    if octet3 > 255 then Err(InvalidOctet(octet3))
    else if octet2 > 255 then Err(InvalidOctet(octet2))
    else if octet1 > 255 then Err(InvalidOctet(octet1))
    else if octet0 > 255 then Err(InvalidOctet(octet0))
    else Ok(V4Address(octet3, octet2, octet1, octet0))
  }

  /**
    One token of a dotted-decimal address: `strconv.Atoi`, the conversion to
    `uint`, then the check against 255. A negative number wraps to a huge
    unsigned value and is rejected by that check.
   */
  function ParseOctet(tok: string): (r: Result<Octet>)
    ensures r.Ok? <==> Atoi(tok).Ok? && 0 <= Atoi(tok).value <= 255
    ensures r.Ok? ==> r.value == Atoi(tok).value
    ensures Atoi(tok).Err? ==> r == Err(Atoi(tok).error)
    ensures Atoi(tok).Ok? && r.Err? ==> r.error.InvalidOctet? && r.error.value > 255
  {
    match Atoi(tok)
    case Err(e) => Err(e)
    case Ok(n) =>
      var u := ToUint(n);
      if u > 255 then Err(InvalidOctet(u)) else Ok(u)
  }

  /**
    `NewV4Address`: splits on '.' and requires exactly four tokens; token 0
    becomes octet3.
   */
  function NewV4Address(address: string): (r: Result<V4Address>)
    ensures |Split(address, '.')| != 4 ==> r == Err(AddressTokenCount)
    ensures |Split(address, '.')| == 4 ==> r == ParseTokens(Split(address, '.'))
  {
    var toks := Split(address, '.');
    if |toks| != 4 then Err(AddressTokenCount) else ParseTokens(toks)
  }

  /**
    The four tokens of a dotted-decimal address, read from the last (least
    significant) to the first, so that the error reported is the one of the
    last bad token.
   */
  function ParseTokens(toks: seq<string>): (r: Result<V4Address>)
    requires |toks| == 4
    ensures r.Ok? <==> ParseOctet(toks[0]).Ok? && ParseOctet(toks[1]).Ok? && ParseOctet(toks[2]).Ok? && ParseOctet(toks[3]).Ok?
    ensures r.Ok? ==> r.value == V4Address(ParseOctet(toks[0]).value, ParseOctet(toks[1]).value,
                                           ParseOctet(toks[2]).value, ParseOctet(toks[3]).value)
    ensures ParseOctet(toks[3]).Err? ==> r == Err(ParseOctet(toks[3]).error)
    ensures ParseOctet(toks[3]).Ok? && ParseOctet(toks[2]).Err? ==> r == Err(ParseOctet(toks[2]).error)
    ensures ParseOctet(toks[3]).Ok? && ParseOctet(toks[2]).Ok? && ParseOctet(toks[1]).Err? ==>
      r == Err(ParseOctet(toks[1]).error)
    ensures r.Err? && ParseOctet(toks[3]).Ok? && ParseOctet(toks[2]).Ok? && ParseOctet(toks[1]).Ok? ==>
      r == Err(ParseOctet(toks[0]).error)
  {
    match ParseOctet(toks[3])
    case Err(e) => Err(e)
    case Ok(octet0) =>
      match ParseOctet(toks[2])
      case Err(e) => Err(e)
      case Ok(octet1) =>
        match ParseOctet(toks[1])
        case Err(e) => Err(e)
        case Ok(octet2) =>
          match ParseOctet(toks[0])
          case Err(e) => Err(e)
          case Ok(octet3) => Ok(V4Address(octet3, octet2, octet1, octet0))
  }

  /** `getIpCount`: the ordinal plus one, a count in [1, 2^32]. */
  function IpCount(a: V4Address): (r: nat)
    ensures r == Ordinal(a) + 1
    ensures 1 <= r <= 4294967296
  {
    16777216 * a.octet3 + 65536 * a.octet2 + 256 * a.octet1 + a.octet0 + 1
  }

  /** `String`: dotted decimal, most significant octet first. */
  function ToString(a: V4Address): string
  {
    Decimal(a.octet3) + "." + Decimal(a.octet2) + "." + Decimal(a.octet1) + "." + Decimal(a.octet0)
  }

  // ---------------------------------------------------------------------------
  // Properties

  /** The ordinal determines the address: IpCount is injective. */
  lemma IpCountInjective(a: V4Address, b: V4Address)
    requires IpCount(a) == IpCount(b)
    ensures a == b
  {
    OrdinalOrder(a, b);
    OrdinalOrder(b, a);
  }

  /** IpCount orders addresses as their octets do, most significant first. */
  lemma OrdinalOrder(a: V4Address, b: V4Address)
    ensures IpCount(a) < IpCount(b) <==> OctetsBefore(a, b)
  {
  }

  /** Every address below 2^32 is the ordinal of one address. */
  lemma OrdinalOnto(n: nat)
    requires n < 4294967296
    ensures exists a: V4Address :: Ordinal(a) == n
  {
    BytesOfWord(n);
    var a := V4Address(Shr(n, 24), And(Shr(n, 16), 255), And(Shr(n, 8), 255), And(n, 255));
    assert Ordinal(a) == n;
  }

  /** The rendering contains digits and the three dots only. */
  lemma ToStringJoin(a: V4Address)
    ensures ToString(a) == Join([Decimal(a.octet3), Decimal(a.octet2), Decimal(a.octet1), Decimal(a.octet0)], '.')
    ensures '/' !in ToString(a)
  {
    var d3, d2, d1, d0 := Decimal(a.octet3), Decimal(a.octet2), Decimal(a.octet1), Decimal(a.octet0);
    var toks := [d3, d2, d1, d0];
    assert toks[1..] == [d2, d1, d0] && toks[1..][1..] == [d1, d0] && toks[1..][1..][1..] == [d0];
    assert Join([d0], '.') == d0;
    assert Join([d1, d0], '.') == d1 + "." + d0;
    assert Join([d2, d1, d0], '.') == d2 + "." + (d1 + "." + d0);
    assert Join(toks, '.') == d3 + "." + (d2 + "." + (d1 + "." + d0));
    forall d | d in [d3, d2, d1, d0]
      ensures '/' !in d
    {
      assert AllDigits(d);
    }
  }

  /** A negative token wraps to 2^64 less its magnitude and is rejected as that octet. */
  lemma ParseOctetNegative(n: nat)
    requires 0 < n <= MaxInt64 + 1
    ensures ParseOctet("-" + Decimal(n)) == Err(InvalidOctet(0x1_0000_0000_0000_0000 - n))
  {
    AtoiNegative(n);
    ToUintNegative(n);
  }

  /** Four dotted tokens without dots are parsed as those four tokens. */
  lemma DottedTokens(t3: string, t2: string, t1: string, t0: string)
    requires '.' !in t3 && '.' !in t2 && '.' !in t1 && '.' !in t0
    ensures NewV4Address(Join([t3, t2, t1, t0], '.')) == ParseTokens([t3, t2, t1, t0])
  {
    SplitJoin([t3, t2, t1, t0], '.');
  }

  /** Parsing the rendering of an address gives the address back. */
  lemma ParseToString(a: V4Address)
    ensures NewV4Address(ToString(a)) == Ok(a)
  {
    var toks := [Decimal(a.octet3), Decimal(a.octet2), Decimal(a.octet1), Decimal(a.octet0)];
    ToStringJoin(a);
    forall i | 0 <= i < 4
      ensures '.' !in toks[i]
    {
      assert AllDigits(toks[i]);
    }
    SplitJoin(toks, '.');
    AtoiDecimal(a.octet3);
    AtoiDecimal(a.octet2);
    AtoiDecimal(a.octet1);
    AtoiDecimal(a.octet0);
  }
}
