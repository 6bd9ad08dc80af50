/**
  The pieces of Go's standard library that the address and block parsers
  rely on: `strings.Split` with a one-character separator, the `%d` verb of
  `fmt` for unsigned integers, `strconv.Atoi`, and the conversion `uint(n)`
  of a signed `int` on a 64-bit platform.
 */
module Text {
  import opened Errors

  // ---------------------------------------------------------------------------
  // strings.Split and strings.Join

  /** The number of times c occurs in s. */
  function Occurrences(s: string, c: char): nat
  {
    if |s| == 0 then 0 else (if s[0] == c then 1 else 0) + Occurrences(s[1..], c)
  }

  /** `strings.Join(toks, string(sep))` */
  function Join(toks: seq<string>, sep: char): string
    requires |toks| >= 1
  {
    if |toks| == 1 then toks[0] else toks[0] + [sep] + Join(toks[1..], sep)
  }

  /**
    `strings.Split(s, string(sep))`: the pieces of s between the separators,
    one more than there are separators; the empty string gives one empty piece.
   */
  function Split(s: string, sep: char): (toks: seq<string>)
    ensures |toks| == Occurrences(s, sep) + 1
    ensures forall i | 0 <= i < |toks| :: sep !in toks[i]
    ensures Join(toks, sep) == s
  {
    if |s| == 0 then [""]
    else
      var rest := Split(s[1..], sep);
      if s[0] == sep then
        [""] + rest
      else
        var toks := [[s[0]] + rest[0]] + rest[1..];
        assert |rest| > 1 ==> Join(toks, sep) == [s[0]] + Join(rest, sep) by {
          if |rest| > 1 {
            assert toks[1..] == rest[1..];
          }
        }
        assert s == [s[0]] + s[1..];
        toks
  }

  /** A piece without the separator splits into itself. */
  lemma {:induction false} SplitWithoutSeparator(t: string, sep: char)
    requires sep !in t
    ensures Split(t, sep) == [t]
  {
    if |t| > 0 {
      SplitWithoutSeparator(t[1..], sep);
      assert [t[0]] + t[1..] == t;
    }
  }

  lemma {:induction false} SplitAfterPiece(t: string, u: string, sep: char)
    requires sep !in t
    ensures Split(t + [sep] + u, sep) == [t] + Split(u, sep)
  {
    var s := t + [sep] + u;
    if |t| == 0 {
      assert s[1..] == u;
    } else {
      assert s[1..] == t[1..] + [sep] + u;
      SplitAfterPiece(t[1..], u, sep);
      assert [t[0]] + t[1..] == t;
    }
  }

  /** Splitting undoes joining pieces that do not contain the separator. */
  lemma {:induction false} SplitJoin(toks: seq<string>, sep: char)
    requires |toks| >= 1
    requires forall i | 0 <= i < |toks| :: sep !in toks[i]
    ensures Split(Join(toks, sep), sep) == toks
  {
    if |toks| == 1 {
      SplitWithoutSeparator(toks[0], sep);
    } else {
      SplitAfterPiece(toks[0], Join(toks[1..], sep), sep);
      SplitJoin(toks[1..], sep);
      assert [toks[0]] + toks[1..] == toks;
    }
  }

  // ---------------------------------------------------------------------------
  // Decimal digits

  predicate IsDigit(c: char)
  {
    '0' <= c <= '9'
  }

  predicate AllDigits(s: string)
  {
    forall i | 0 <= i < |s| :: IsDigit(s[i])
  }

  function DigitValue(c: char): (d: nat)
    requires IsDigit(c)
    ensures d < 10
  {
    (c as int) - ('0' as int)
  }

  function DigitChar(d: nat): (c: char)
    requires d < 10
    ensures IsDigit(c) && DigitValue(c) == d
  {
    ('0' as int + d) as char
  }

  /** The value of a string of decimal digits, most significant first. */
  function DigitsValue(s: string): nat
    requires AllDigits(s)
  {
    if |s| == 0 then 0 else 10 * DigitsValue(s[..|s| - 1]) + DigitValue(s[|s| - 1])
  }

  /** `fmt.Sprintf("%d", n)` for an unsigned n: its decimal digits, without leading zeros. */
  function Decimal(n: nat): (s: string)
    ensures |s| >= 1 && AllDigits(s)
    ensures s[0] == '0' ==> n == 0
  {
    if n < 10 then [DigitChar(n)] else Decimal(n / 10) + [DigitChar(n % 10)]
  }

  /** Reading back the digits `%d` writes gives the number. */
  lemma {:induction false} DecimalValue(n: nat)
    ensures DigitsValue(Decimal(n)) == n
  {
    if n >= 10 {
      DecimalValue(n / 10);
      var s := Decimal(n);
      assert s[..|s| - 1] == Decimal(n / 10);
    }
  }

  /** The longest prefix of s made of digits. */
  function LeadingDigits(s: string): (d: string)
    ensures d <= s && AllDigits(d)
    ensures |d| < |s| ==> !IsDigit(s[|d|])
  {
    if |s| == 0 || !IsDigit(s[0]) then "" else [s[0]] + LeadingDigits(s[1..])
  }

  lemma {:induction false} LeadingDigitsOfDigits(s: string)
    requires AllDigits(s)
    ensures LeadingDigits(s) == s
  {
    if |s| > 0 {
      LeadingDigitsOfDigits(s[1..]);
      assert [s[0]] + s[1..] == s;
    }
  }

  // ---------------------------------------------------------------------------
  // strconv.Atoi and uint(n)

  const MaxUint64: nat := 0xFFFF_FFFF_FFFF_FFFF
  const MaxInt64: nat := 0x7FFF_FFFF_FFFF_FFFF
  const MinInt64: int := -0x8000_0000_0000_0000

  /** The text after an optional leading '+' or '-'. */
  function Unsigned(s: string): string
  {
    if |s| > 0 && (s[0] == '+' || s[0] == '-') then s[1..] else s
  }

  /** An optional sign followed by one or more decimal digits. */
  predicate IsSignedDecimal(s: string)
  {
    |Unsigned(s)| > 0 && AllDigits(Unsigned(s))
  }

  /** The value a signed decimal denotes. */
  function SignedValue(s: string): int
    requires IsSignedDecimal(s)
  {
    if s[0] == '-' then -(DigitsValue(Unsigned(s)) as int) else DigitsValue(Unsigned(s))
  }

  /**
    `strconv.Atoi(s)` on a 64-bit platform. A syntax error for anything but a
    signed decimal; a range error for a value outside int64. As in
    `strconv.ParseUint`, a run of digits too long for 64 bits is reported as
    a range error even when a non-digit follows it.
   */
  function Atoi(s: string): (r: Result<int>)
    ensures r.Ok? <==> IsSignedDecimal(s) && MinInt64 <= SignedValue(s) <= MaxInt64
    ensures r.Ok? ==> r.value == SignedValue(s)
    ensures r.Err? ==> r.error == NumSyntax(s) || r.error == NumRange(s)
  {
    if |s| == 0 then Err(NumSyntax(s))
    else
      var neg := s[0] == '-';
      var body := Unsigned(s);
      if |body| == 0 then Err(NumSyntax(s))
      else
        var lead := LeadingDigits(body);
        if DigitsValue(lead) > MaxUint64 then
          assert AllDigits(body) ==> lead == body by {
            if AllDigits(body) {
              LeadingDigitsOfDigits(body);
            }
          }
          Err(NumRange(s))
        else if |lead| < |body| then
          Err(NumSyntax(s))
        else
          assert lead == body;
          var u := DigitsValue(body);
          if !neg && u > MaxInt64 then Err(NumRange(s))
          else if neg && u > MaxInt64 + 1 then Err(NumRange(s))
          else Ok(if neg then -(u as int) else u)
  }

  /** `uint(n)` for a 64-bit int: two's-complement wrap-around modulo 2^64. */
  function ToUint(n: int): (u: nat)
    ensures u <= MaxUint64
    ensures 0 <= n <= MaxUint64 ==> u == n
    ensures MinInt64 <= n < 0 ==> u > MaxInt64
  {
    n % 0x1_0000_0000_0000_0000
  }

  /** A negative int of at most 64 bits wraps to 2^64 less its magnitude. */
  lemma ToUintNegative(n: nat)
    requires 0 < n <= MaxInt64 + 1
    ensures ToUint(-(n as int)) == 0x1_0000_0000_0000_0000 - n
  {
    var m := 0x1_0000_0000_0000_0000;
    assert -(n as int) == -1 * m + (m - n);
  }

  /** Atoi reads back what `%d` writes. */
  lemma AtoiDecimal(n: nat)
    requires n <= MaxInt64
    ensures Atoi(Decimal(n)) == Ok(n)
  {
    var s := Decimal(n);
    DecimalValue(n);
    assert Unsigned(s) == s;
  }

  /** Atoi reads a minus sign followed by what `%d` writes as the negative number. */
  lemma AtoiNegative(n: nat)
    requires n <= MaxInt64 + 1
    ensures Atoi("-" + Decimal(n)) == Ok(-(n as int))
  {
    var s := "-" + Decimal(n);
    DecimalValue(n);
    assert Unsigned(s) == Decimal(n);
  }
}
