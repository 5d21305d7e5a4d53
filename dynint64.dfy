/**
 * `DynInt64` (dynint64.go): a dynamic flag holding an `int64`, parsed with Go's
 * `strconv.ParseInt(input, 0, 64)` — an optional sign, then a base prefix
 * ("0b", "0o", "0x", or a bare leading "0" for octal), digits, and underscores
 * between digits, which base 0 allows.
 */
module Int64Flags {
  import opened Wrappers
  import opened Numbers
  import opened Registry
  import opened Common
  import opened DynValues

  /** `strconv.ErrSyntax` and `strconv.ErrRange`. */
  datatype NumError = ErrSyntax | ErrRange

  /** ASCII lower-casing, as strconv's `lower` is used on letters. */
  function Lower(c: char): char {
    if 'A' <= c <= 'Z' then (c as int + 32) as char else c
  }

  /** The value of `c` as a digit of a base up to 36. */
  function DigitValue(c: char): (r: Option<nat>)
    ensures IsDigit(c) ==> r == Some(c as int - '0' as int)
    ensures r.Some? ==> r.value < 36
  {
    if IsDigit(c) then Some(c as int - '0' as int)
    else if 'a' <= Lower(c) <= 'z' then Some(Lower(c) as int - 'a' as int + 10)
    else None
  }

  /**
   * The digit loop of `ParseUint` from accumulator `n`: underscores are skipped and
   * remembered, a character that is not a digit of `base` is a syntax error, and a
   * value above the `uint64` maximum is a range error, reported at the first digit
   * that overflows.
   */
  function Accumulate(n: nat, base: nat, s: string, underscores: bool): (r: Result<(nat, bool), NumError>)
    requires n <= MAX_UINT64
    ensures r.Success? ==> r.value.0 <= MAX_UINT64
    ensures r.Success? ==> (r.value.1 <==> underscores || '_' in s)
    decreases |s|
  {
    if s == [] then Success((n, underscores))
    else
      InFirstOrRest('_', s);
      if s[0] == '_' then Accumulate(n, base, s[1..], true)
      else match DigitValue(s[0])
        case None => Failure(ErrSyntax)
        case Some(d) =>
          var next := n * base + d;
          if d >= base then Failure(ErrSyntax)
          else if next > MAX_UINT64 then Failure(ErrRange)
          else Accumulate(next, base, s[1..], underscores)
  }

  lemma InFirstOrRest(c: char, s: string)
    requires s != []
    ensures c in s <==> s[0] == c || c in s[1..]
  {
    assert s == [s[0]] + s[1..];
  }

  /** The base chosen by base 0 and the digits that follow the prefix. */
  function SplitBase(s: string): (r: (nat, string))
    requires s != []
    ensures r.0 in {2, 8, 10, 16}
    ensures s[0] != '0' ==> r == (10, s)
    ensures |s| == 1 && s[0] == '0' ==> r.1 == []
  {
    if s[0] != '0' then (10, s)
    else if |s| >= 3 && Lower(s[1]) == 'b' then (2, s[2..])
    else if |s| >= 3 && Lower(s[1]) == 'o' then (8, s[2..])
    else if |s| >= 3 && Lower(s[1]) == 'x' then (16, s[2..])
    else (8, s[1..])
  }

  /** What `underscoreOK` last saw: the start, a digit (or base prefix), an underscore, or anything else. */
  datatype Saw = Start | Digit | Underscore | Other

  function UnderscoreScan(saw: Saw, hex: bool, s: string): bool
    decreases |s|
  {
    if s == [] then saw != Underscore
    else if IsDigit(s[0]) || (hex && 'a' <= Lower(s[0]) <= 'f') then UnderscoreScan(Digit, hex, s[1..])
    else if s[0] == '_' then saw == Digit && UnderscoreScan(Underscore, hex, s[1..])
    else saw != Underscore && UnderscoreScan(Other, hex, s[1..])
  }

  /** `underscoreOK`: every underscore sits between two digits (a base prefix counts as a digit). */
  function UnderscoreOK(s: string): (ok: bool)
    ensures s != [] && s[0] == '_' ==> !ok
  {
    var t := if |s| >= 1 && (s[0] == '-' || s[0] == '+') then s[1..] else s;
    if |t| >= 2 && t[0] == '0' && Lower(t[1]) in {'b', 'o', 'x'} then
      UnderscoreScan(Digit, Lower(t[1]) == 'x', t[2..])
    else
      UnderscoreScan(Start, false, t)
  }

  /** `strconv.ParseUint(s, 0, 64)`. */
  function ParseUint(s: string): (r: Result<nat, NumError>)
    ensures s == [] ==> r == Failure(ErrSyntax)
    ensures r.Success? ==> r.value <= MAX_UINT64
  {
    if s == [] then Failure(ErrSyntax)
    else
      var (base, digits) := SplitBase(s);
      match Accumulate(0, base, digits, false)
      case Failure(e) => Failure(e)
      case Success((n, underscores)) =>
        if underscores && !UnderscoreOK(s) then Failure(ErrSyntax) else Success(n)
  }

  /**
   * `strconv.ParseInt(s, 0, 64)`: a sign, then `ParseUint`; a magnitude beyond the
   * `int64` range of the sign is a range error.
   */
  function ParseInt(s: string): (r: Result<Int64, NumError>)
    ensures s == [] || s == "-" || s == "+" ==> r == Failure(ErrSyntax)
  {
    if s == [] then Failure(ErrSyntax)
    else
      var neg := s[0] == '-';
      var body := if s[0] == '+' || s[0] == '-' then s[1..] else s;
      match ParseUint(body)
      case Failure(ErrSyntax) => Failure(ErrSyntax)
      case Failure(ErrRange) => Failure(ErrRange)
      case Success(un) =>
        if !neg && un >= TWO_63 then Failure(ErrRange)
        else if neg && un > TWO_63 then Failure(ErrRange)
        else
          var v: int := if neg then -(un as int) else un;
          Success(v)
  }

  /** The digit loop over a concatenation runs over the first part, then over the second. */
  lemma {:induction false} AccumulateAppend(n: nat, base: nat, a: string, b: string, u: bool)
    requires n <= MAX_UINT64
    ensures Accumulate(n, base, a + b, u) ==
      match Accumulate(n, base, a, u)
      case Failure(e) => Failure(e)
      case Success((m, u2)) => Accumulate(m, base, b, u2)
    decreases |a|
  {
    if a != [] {
      assert (a + b)[1..] == a[1..] + b;
      if a[0] == '_' {
        AccumulateAppend(n, base, a[1..], b, true);
      } else if DigitValue(a[0]).Some? {
        var d := DigitValue(a[0]).value;
        if d < base && n * base + d <= MAX_UINT64 {
          AccumulateAppend(n * base + d, base, a[1..], b, u);
        }
      }
    } else {
      assert a + b == b;
    }
  }

  /** Decimal digits accumulate to the number they denote. */
  lemma {:induction false} AccumulateDecimal(n: nat)
    requires n <= MAX_UINT64
    ensures Accumulate(0, 10, DecimalDigits(n), false) == Success((n, false))
    decreases n
  {
    if n >= 10 {
      AccumulateDecimal(n / 10);
      AccumulateAppend(0, 10, DecimalDigits(n / 10), [DigitChar(n % 10)], false);
    }
  }

  /**
   * A decimal number beyond the `uint64` maximum fails with a range error: the
   * digit loop stops at the first digit that overflows.
   */
  lemma {:induction false} AccumulateTooLarge(n: nat)
    requires n > MAX_UINT64
    ensures Accumulate(0, 10, DecimalDigits(n), false) == Failure(ErrRange)
    decreases n
  {
    var last := DigitChar(n % 10);
    AccumulateAppend(0, 10, DecimalDigits(n / 10), [last], false);
    if n / 10 > MAX_UINT64 {
      AccumulateTooLarge(n / 10);
    } else {
      AccumulateDecimal(n / 10);
      assert (n / 10) * 10 + n % 10 == n;
    }
  }

  /** A non-negative decimal literal of 2^63 or more is out of the `int64` range. */
  lemma OutOfRange(n: nat)
    requires n >= TWO_63
    ensures ParseInt(DecimalDigits(n)) == Failure(ErrRange)
  {
    var digits := DecimalDigits(n);
    assert digits[0] != '0' && digits[0] != '-' && digits[0] != '+';
    if n <= MAX_UINT64 {
      AccumulateDecimal(n);
    } else {
      AccumulateTooLarge(n);
    }
  }

  /** A negative decimal literal below -2^63 is out of the `int64` range. */
  lemma NegativeOutOfRange(n: nat)
    requires n > TWO_63
    ensures ParseInt("-" + DecimalDigits(n)) == Failure(ErrRange)
  {
    var digits := DecimalDigits(n);
    var s := "-" + digits;
    assert s[0] == '-' && s[1..] == digits;
    assert digits[0] != '0';
    if n <= MAX_UINT64 {
      AccumulateDecimal(n);
    } else {
      AccumulateTooLarge(n);
    }
  }

  /** The most negative `int64`, whose magnitude 2^63 does not fit as a positive value, is accepted. */
  lemma MinInt64()
    ensures ParseInt("-" + DecimalDigits(TWO_63)) == Success(-TWO_63)
  {
    ParseFormatInt(-TWO_63);
  }

  /** Every `int64`'s decimal rendering parses back to the same value. */
  lemma ParseFormatInt(v: Int64)
    ensures ParseInt(FormatInt(v)) == Success(v)
  {
    var m: nat := if v < 0 then -(v as int) else v as int;
    var digits := DecimalDigits(m);
    AccumulateDecimal(m);
    assert FormatInt(v)[0] == '-' ==> FormatInt(v)[1..] == digits;
  }

  /** `DynInt64`: registers the flag, marks it dynamic and returns its value cell. */
  method DynInt64(flagSet: FlagSet, name: string, value: Int64, usage: string)
    returns (d: DynValue<Int64, NumError>)
    requires flagSet.Valid() && name !in flagSet.flags
    modifies flagSet
    ensures fresh(d) && d.Get() == value && d.validator == None && d.Type() == "dyn_int64"
    ensures d.parse == ParseInt
    ensures flagSet.Valid() && flagSet.order == old(flagSet.order) + [name]
    ensures flagSet.flags == old(flagSet.flags)[name :=
      MarkDynamic(Flag(name, usage, FormatInt(value), FormatInt(value), "dyn_int64", false, None))]
  {
    d := new DynValue(value, ParseInt, "dyn_int64");
    flagSet.AddFlag(Flag(name, usage, FormatInt(value), FormatInt(value), "dyn_int64", false, None));
    SetFlagDynamic(flagSet, name);
  }

  /** `String`: the decimal rendering, which parses back to the current value. */
  function String(d: DynValue<Int64, NumError>): (s: string)
    reads d
    ensures ParseInt(s) == Success(d.Get())
    ensures (s[0] == '-') == (d.Get() < 0)
  {
    ParseFormatInt(d.Get());
    FormatInt(d.Get())
  }

  /** `ValidateDynInt64Range`: accepts exactly the values in the closed range. */
  function ValidateDynInt64Range(fromInclusive: Int64, toInclusive: Int64): (check: Int64 -> bool)
    ensures forall v: Int64 :: check(v) <==> fromInclusive <= v <= toInclusive
  {
    v => !(v > toInclusive || v < fromInclusive)
  }

  /** A "0x" prefix reads hexadecimal, a lone leading zero octal. */
  lemma HexAndOctalExamples()
    ensures ParseInt("0x1F") == Success(31)
    ensures ParseInt("010") == Success(8)
  {
  }

  /** Underscores may only separate digits. */
  lemma UnderscoreExamples()
    ensures ParseInt("1_000") == Success(1000)
    ensures ParseInt("_1").Failure?
  {
  }

  /** A base prefix needs at least one digit after it. */
  lemma PrefixOnlyExample()
    ensures ParseInt("0x") == Failure(ErrSyntax)
  {
  }
}
