# goip: IPv4 addresses and CIDR blocks, in Dafny

A model of the core of `goip`, a Go library for IPv4 addresses and CIDR
blocks, with proofs about it. It covers:
- **Addresses** (`V4`, from `v4address.go`): four octets, most significant
  first. An address is built from four unsigned values or parsed from
  dotted-decimal text, and rendered back to it. Its count (`getIpCount`) is
  its position in the 32-bit address space plus one.
- **Blocks** (`Cidr`, from `cidr.go`): an address and a prefix length of 0 to
  32.
  - A block is parsed from and rendered to `N.N.N.N/M` notation.
  - Its four per-octet masks come from the prefix length (`calcOctetMasks`).
  - Its inclusive lowest and highest addresses (`ToRange`) come from masking
    each octet (`calcLow`, `calcHigh`).
  - A block is built back from a (low, high) pair (`NewCIDRFromRange`).

Both Go files are pure computations on values, so the model uses
datatypes, functions and lemmas. A Go `(*T, error)` result becomes
`Result<T>`. A `panic` that the code guards against becomes a branch that is
proved unreachable.

Supporting modules:
- `Errors`: the error kinds and `Result`.
- `Text`: the Go standard-library behaviour the parsers depend on.
  - `strings.Split` and `strings.Join` on a one-character separator.
  - `%d` of an unsigned value.
  - `strconv.Atoi` on a 64-bit platform: syntax and range errors,
    and the int64 bounds.
  - The conversion `uint(n)`: wrap-around modulo 2^64.
- `Bits`: `&`, `|`, `^`, `>>` and `<<` on unbounded naturals, defined bit
  by bit, and powers of two. The lemmas relate them to arithmetic: a mask
  of high ones, rounding down to a multiple of 2^k, and bytes of a 32-bit
  word.
- `Vectors`: concrete blocks, ranges and errors.

Main results:
- Parsing the rendering of an address or block gives it back
  (`V4.ParseToString`, `Cidr.ParseToString`).
- The range of a block is the block's address rounded down to a multiple
  of 2^(32 - p), followed by 2^(32 - p) addresses (`Cidr.ToRange`). That
  range contains the block's address, is aligned, and is unchanged when
  the address is replaced by the range's low end.
- Building a block from the range of any block gives that block back, based
  at its lowest address (`Cidr.FromRangeOfToRange`).
- For arbitrary ranges, `NewCIDRFromRange` silently normalises, and the
  model states what it then returns (`Cidr.FromRangeCoversLow`,
  `Cidr.FromRangeExact`, `Cidr.FromRangeMisaligned`).

For a range that is not one block, the code neither rejects nor reports
anything. It returns the block of the largest power-of-two size not above
the span, around `low`. The model follows the code in this.

## Model

| member | source | states |
|---|---|---|
| V4.NewV4AddressFromOctets | v4address.go:19-39 | succeeds exactly when all four values are at most 255, with the values as octets in order of significance; otherwise fails with InvalidOctet of the first value above 255, checking octet3, octet2, octet1, octet0 in that order |
| V4.ParseOctet | v4address.go:49-56 | a token is an octet exactly when Atoi accepts it and its value is in 0..255; Atoi's error is passed on; an accepted value above 255 or below 0 fails with InvalidOctet of a value above 255 |
| V4.ParseOctetNegative | v4address.go:49-56 | a token "-n" is converted to uint as 2^64 - n and rejected as InvalidOctet(2^64 - n) |
| V4.NewV4Address | v4address.go:43-47 | text that does not split on '.' into exactly four tokens fails with AddressTokenCount; four tokens are parsed as ParseTokens does |
| V4.ParseTokens | v4address.go:48-85 | succeeds exactly when all four tokens are octets, token 0 becoming octet3 and token 3 octet0; a failure reports the error of the last bad token, since token 3 is checked first, then 2, 1, 0 |
| V4.DottedTokens | v4address.go:44-47 | four tokens without '.' joined by '.' are parsed as exactly those four tokens |
| V4.IpCount | v4address.go:88-95 | the count is the address's big-endian ordinal plus one, between 1 and 2^32 |
| V4.IpCountInjective | v4address.go:88-95 | two addresses with the same count are the same address |
| V4.OrdinalOrder | v4address.go:88-95 | one count is below another exactly when the first address's octets come first lexicographically, most significant first |
| V4.OrdinalOnto | v4address.go:88-95 | every number below 2^32 is the ordinal of some address |
| V4.ToStringJoin | v4address.go:98-100 | the rendering is the four octets in decimal joined by '.', and it holds no '/' |
| V4.ParseToString | v4address.go:43-100 | parsing the dotted-decimal rendering of any address gives that address |
| Cidr.CalcOctetMasks | cidr.go:78-91 | each of the four masks is below 256, and together, most significant first, they form the word 2^32 - 2^(32 - p) |
| Cidr.MaskShape | cidr.go:78-91 | the mask word is p one bits followed by 32 - p zero bits |
| Cidr.MaskOfPrefixZero | cidr.go:78-91 | a /0 block has all four masks 0 |
| Cidr.MaskOfPrefixFull | cidr.go:78-91 | a /32 block has all four masks 255 |
| Cidr.CalcLow | cidr.go:93-104 | ANDing each octet with its mask gives octets no larger than the address's, so the address is always built and the panic is unreachable |
| Cidr.CalcLowOrdinal | cidr.go:93-104 | masking octet by octet is ANDing the address's ordinal with the mask word |
| Cidr.OrComplement | cidr.go:107-110 | the complement of an octet mask is 255 minus the mask, and ORing it into an octet gives an octet no smaller than the original |
| Cidr.CalcHigh | cidr.go:106-117 | ORing each octet with the complement of its mask gives octets no smaller than the address's and still octets, so the address is always built and the panic is unreachable |
| Cidr.CalcHighOrdinal | cidr.go:106-117 | ORing octet by octet is ORing the address's ordinal with the complement of the mask word |
| Cidr.RangeOrdinals | cidr.go:67-70 | with the block's own masks, the low address is the ordinal rounded down to a multiple of 2^(32 - p), and the high address is 2^(32 - p) - 1 above it |
| Cidr.ToRange | cidr.go:67-70 | the lowest address is the block's ordinal rounded down to a multiple of 2^(32 - p), and the highest is 2^(32 - p) - 1 above it |
| Cidr.ToRangeBounds | cidr.go:67-70 | the block's address lies between its lowest and highest, and the range holds exactly 2^(32 - p) addresses |
| Cidr.ToRangeAligned | cidr.go:67-70 | the lowest address has its 32 - p host bits clear |
| Cidr.ToRangeOfAlign | cidr.go:67-70 | two blocks of one prefix whose addresses round down alike have the same range |
| Cidr.ToRangeIdempotent | cidr.go:67-70 | replacing a block's address by its lowest address leaves the range unchanged |
| Cidr.SameBlock | cidr.go:67-70 | two blocks of one prefix have the same range exactly when their addresses agree above the host bits |
| Cidr.NewCidr | cidr.go:23-46 | text that does not split on '/' into exactly two tokens fails with CidrTokenCount; otherwise succeeds exactly when the address and the prefix both parse, with those values; an address error wins over a prefix error |
| Cidr.ParseBitmask | cidr.go:35-42 | a prefix token is accepted exactly when Atoi accepts it with a value in 0..32; Atoi's error is passed on; other values fail with InvalidBitmask of a value above 32, and a negative one with a value above 2^63 - 1 |
| Cidr.ParseBitmaskNegative | cidr.go:35-42 | a prefix "-n" is converted to uint as 2^64 - n and rejected as InvalidBitmask(2^64 - n) |
| Cidr.EveryPrefixAccepted | cidr.go:35-42 | every prefix 0..32 written in decimal is accepted as itself |
| Cidr.PrefixForSpan | cidr.go:54-55 | for a span n of 1 to 2^32 addresses, 2^(32 - p) is the largest power of two not above n |
| Cidr.NewCidrFromRange | cidr.go:50-64 | never fails; the block size is the largest power of two not above the span, and the block's address is the lowest address of the block of that prefix around low |
| Cidr.FromRangeOfToRange | cidr.go:50-70 | the range of any block gives back that block, at its lowest address and with the same prefix and range |
| Cidr.FromRangeCoversLow | cidr.go:50-64 | for any range, the block found contains low, and holds at most as many addresses as the range and more than half as many |
| Cidr.FromRangeExact | cidr.go:50-64 | the block found reproduces the range exactly when the range is the range of some block around low |
| Cidr.FromRangeMisaligned | cidr.go:50-64 | for the range 0.0.0.1 to 0.0.0.2 (ordinals 1 and 2), the block found is 0.0.0.0/31, whose range ends at 0.0.0.1 and so misses 0.0.0.2 |
| Cidr.ToStringSplit | cidr.go:74-76 | the notation splits on '/' into the dotted address and the decimal prefix |
| Cidr.ParseToString | cidr.go:23-76 | parsing the notation of any block gives that block |
| Vectors.ParseSlash24 | cidr.go:23-46 | "192.168.1.0/24" parses to 192.168.1.0 with prefix 24 |
| Vectors.ParseSlash0 | cidr.go:23-46 | "0.0.0.0/0" parses to 0.0.0.0 with prefix 0 |
| Vectors.ParseSlash32 | cidr.go:23-46 | "192.168.1.5/32" parses to 192.168.1.5 with prefix 32 |
| Vectors.ParseSlash8 | cidr.go:23-46 | "10.0.0.0/8" parses to 10.0.0.0 with prefix 8 |
| Vectors.RangeOfSlash24 | cidr.go:67-70 | every /24 block at 192.168.1.x ranges from 192.168.1.0 to 192.168.1.255 |
| Vectors.RangeOfSlash0 | cidr.go:67-70 | every /0 block ranges from 0.0.0.0 to 255.255.255.255 |
| Vectors.RangeOfSlash32 | cidr.go:67-70 | every /32 block ranges from its address to itself |
| Vectors.RangeOfSlash8 | cidr.go:67-70 | every /8 block at 10.x.x.x ranges from 10.0.0.0 to 10.255.255.255 |
| Vectors.FromRangeSlash24 | cidr.go:50-64 | the range 192.168.1.0 to 192.168.1.255 gives the block 192.168.1.0/24 |
| Vectors.ThreeParts | v4address.go:44-47 | "1.2.3" fails with AddressTokenCount |
| Vectors.FiveParts | cidr.go:26-34 | "1.2.3.4.5/24" fails with AddressTokenCount: it has two '/'-tokens, but its address has five '.'-tokens |
| Vectors.NoSlash | cidr.go:26-29 | an address without '/' and a prefix, such as "1.2.3.4", fails with CidrTokenCount |
| Vectors.PrefixAboveThirtyTwo | cidr.go:40-42 | an address followed by "/n" with n above 32, such as "10.0.0.0/33", fails with InvalidBitmask(n) |
| Vectors.PrefixNegative | cidr.go:35-42 | an address followed by "/-n", such as "10.0.0.0/-1", fails with InvalidBitmask(2^64 - n) |
| Vectors.OctetNegative | v4address.go:49-56 | a negative last token "-n" fails with InvalidOctet(2^64 - n) |
| Vectors.OctetAboveByte | v4address.go:76-83 | a first token above 255, such as "256", fails with InvalidOctet of that value when the other tokens are octets |
| Vectors.LastTokenFirst | v4address.go:49-83 | for "256.1.2.x", the syntax error of the last token is reported, not the first token's value |
| Text.Split | v4address.go:44 | strings.Split gives one more token than there are separators, no token holds the separator, and joining the tokens gives the text back |
| Text.SplitJoin | cidr.go:26 | splitting tokens without the separator after joining them gives the tokens back |
| Text.Decimal | v4address.go:99 | %d of an unsigned value is a non-empty run of digits that starts with '0' only for zero |
| Text.DecimalValue | v4address.go:99 | the digits %d writes denote the value |
| Text.Atoi | v4address.go:49 | Atoi succeeds exactly on an optionally signed run of decimal digits denoting a value in int64, with that value; otherwise it reports a syntax or range error |
| Text.AtoiDecimal | v4address.go:49 | Atoi reads back what %d writes, up to 2^63 - 1 |
| Text.AtoiNegative | v4address.go:49 | Atoi reads "-" followed by the decimal digits of n as -n, down to -2^63 |
| Text.ToUint | v4address.go:52 | uint(n) is below 2^64, keeps values in 0..2^64 - 1, and maps every negative int64 above 2^63 - 1 |
| Text.ToUintNegative | v4address.go:52 | uint(-n) is 2^64 - n for 0 < n <= 2^63 |
| Bits.FloorLog2 | cidr.go:55 | the whole part of log2(n) is the r with 2^r <= n < 2^(r + 1) |
| Bits.FloorLog2OfPow2 | cidr.go:55 | the whole part of log2(2^h) is h |
| Bits.BytesOfWord | cidr.go:85-88 | shifting a 32-bit word right by 24, 16 and 8 and masking with 255 gives four bytes that recombine to the word |
| Bits.AndHighMask | cidr.go:94-97 | ANDing a 32-bit word with the mask of 32 - k high ones clears its k low bits |
| Bits.OrLowOnes | cidr.go:107-110 | ORing a number with 2^k - 1 sets its k low bits |
| Bits.XorOnes | cidr.go:107-110 | XOR with all ones on w bits is the complement on w bits |

## Left out

- Floating point. The code computes `math.Pow(256, n)`, `math.Exp2` and
  `math.Log2` on `float64`. The model uses the exact integer values instead:
  `Pow2`, `FloorLog2` and the constants 256^2 and 256^3. Rounding in
  `math.Log2` is not modelled: the model takes the whole part of the exact
  logarithm. Go's `math.Log2` is exact on powers of two.
- Error wording. Errors are kinds with their numeric payloads; the
  `fmt.Errorf` message text is not modelled.
- Reference identity. `*V4Address` and `*CIDR` become values. `NewCIDRFromRange`
  stores the caller's `low` reference before replacing it; with values, the
  aliasing does not arise.
- The call `cidrBlock.calcOctetMasks()` at cidr.go:43 discards its result and
  has no effect, so `Cidr.NewCidr` does not make it.
- The `< 0` tests on `uint` values (v4address.go:20-29 and 54-81,
  cidr.go:40) are always false in Go. The model keeps only the upper-bound
  tests; a negative number is caught by them after wrapping.
- Cidr.NewCidrFromRange: requires `IpCount(low) <= IpCount(high)`. When high
  comes before low, the span is zero or negative and the Go code takes
  `math.Log2` of it and converts -Inf or NaN to `uint`. That result is
  platform-dependent, so the model does not define it.
- Cidr.NewCidrFromRange: follows the code in silently normalising a range
  that is not one block; it does not reject it. `Cidr.FromRangeExact` and
  `Cidr.FromRangeMisaligned` state what is then returned.
- Cidr.CalcHigh: requires the masks to be octets. The only caller passes
  the masks of `calcOctetMasks`, which are.
- Text.Atoi: models `strconv.Atoi` on a 64-bit platform only (int is
  int64); the error payload is the kind and the token, not Go's
  `*strconv.NumError`.
- Cidr.ToString and V4.ToString carry no contract of their own; what they
  promise is stated by `Cidr.ToStringSplit`, `V4.ToStringJoin` and the two
  `ParseToString` round trips.
