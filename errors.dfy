/** The errors the library returns, and the result type that carries them. */
module Errors {

  datatype Error =
    /** "invalid IP address (token count)": the address does not split into four parts on '.'. */
    | AddressTokenCount
    /** "invalid CIDR block (token count)": the block does not split into two parts on '/'. */
    | CidrTokenCount
    /** "invalid octet value - %d", with the octet as the unsigned value it was converted to. */
    | InvalidOctet(value: nat)
    /** "invalid bitmask value - %d", with the prefix length as the unsigned value it was converted to. */
    | InvalidBitmask(value: nat)
    /** strconv.ErrSyntax from Atoi, with the token it was given. */
    | NumSyntax(num: string)
    /** strconv.ErrRange from Atoi, with the token it was given. */
    | NumRange(num: string)

  /** A value, or the error that took its place (Go's `(T, error)` pair). */
  datatype Result<+T> = Ok(value: T) | Err(error: Error)
}
