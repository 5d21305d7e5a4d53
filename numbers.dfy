/** Go's fixed-width integer types and the decimal rendering used by `fmt` and `strconv`. */
module Numbers {

  const TWO_63: int := 0x8000_0000_0000_0000
  const TWO_64: int := 0x1_0000_0000_0000_0000
  const MAX_UINT64: int := 0xFFFF_FFFF_FFFF_FFFF

  /** Go `int64`. */
  type Int64 = x: int | -0x8000_0000_0000_0000 <= x < 0x8000_0000_0000_0000

  /** Go `uint64`. */
  type Uint64 = x: int | 0 <= x < 0x1_0000_0000_0000_0000

  predicate IsDigit(c: char) {
    '0' <= c <= '9'
  }

  function DigitChar(d: nat): (c: char)
    requires d < 10
    ensures IsDigit(c) && c as int - '0' as int == d
  {
    ('0' as int + d) as char
  }

  /** The decimal digits of `n`, most significant first, with no leading zero except for zero itself. */
  function DecimalDigits(n: nat): (s: string)
    ensures |s| >= 1 && forall i :: 0 <= i < |s| ==> IsDigit(s[i])
    ensures (s[0] == '0') == (n == 0)
    ensures n == 0 ==> s == "0"
    decreases n
  {
    if n < 10 then [DigitChar(n)] else DecimalDigits(n / 10) + [DigitChar(n % 10)]
  }

  /** `strconv.FormatInt(v, 10)`, which is also what `fmt` prints for `%v` of an integer. */
  function FormatInt(v: int): (s: string)
    ensures s != [] && (s[0] == '-') == (v < 0)
  {
    if v < 0 then "-" + DecimalDigits(-v) else DecimalDigits(v)
  }

  /** Go's `x + 1` on a `uint64`, which wraps at 2^64. */
  function Uint64Succ(x: Uint64): (r: Uint64)
    ensures x < MAX_UINT64 ==> r == x + 1
    ensures x == MAX_UINT64 ==> r == 0
  {
    (x + 1) % TWO_64
  }
}
