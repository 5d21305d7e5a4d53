/**
 * `DynDuration` (dynduration.go): a dynamic flag holding a `time.Duration`, an
 * int64 count of nanoseconds, parsed with Go's `time.ParseDuration`: an optional
 * sign, then one or more terms, each a decimal number with an optional fraction
 * followed by a unit (ns, us, µs, μs, ms, s, m, h). The accumulator is a `uint64`
 * that may hold at most 2^63 between terms.
 */
module DurationFlags {
  import opened Wrappers
  import opened Numbers
  import opened Registry
  import opened Common
  import opened DynValues

  datatype DurationError = InvalidDuration | MissingUnit | UnknownUnit(unit: string)

  const MICROSECOND: nat := 1000
  const MILLISECOND: nat := 1000000
  const SECOND: nat := 1000000000
  const MINUTE: nat := 60000000000
  const HOUR: nat := 3600000000000

  /** The nanoseconds of a unit name; both the micro sign U+00B5 and the Greek mu U+03BC spell microseconds. */
  function UnitNanos(u: string): (r: Option<nat>)
    ensures r.Some? ==> 1 <= r.value <= HOUR
    ensures u == [] ==> r == None
  {
    if u == "ns" then Some(1)
    else if u == "us" || u == "\U{00B5}s" || u == "\U{03BC}s" then Some(MICROSECOND)
    else if u == "ms" then Some(MILLISECOND)
    else if u == "s" then Some(SECOND)
    else if u == "m" then Some(MINUTE)
    else if u == "h" then Some(HOUR)
    else None
  }

  function DigitOf(c: char): (d: nat)
    requires IsDigit(c)
    ensures d < 10
  {
    c as int - '0' as int
  }

  /**
   * `leadingInt` from accumulator `x`: the leading decimal digits and the rest;
   * None once the value would exceed 2^63.
   */
  function LeadingInt(s: string, x: nat): (r: Option<(nat, string)>)
    requires x <= TWO_63
    ensures r.Some? ==> r.value.0 <= TWO_63 && |r.value.1| <= |s|
    ensures r.Some? ==> r.value.1 == [] || !IsDigit(r.value.1[0])
    ensures r.Some? && s != [] && IsDigit(s[0]) ==> |r.value.1| < |s|
    ensures s == [] || !IsDigit(s[0]) ==> r == Some((x, s))
    decreases |s|
  {
    if s == [] || !IsDigit(s[0]) then Some((x, s))
    else if x > TWO_63 / 10 then None
    else
      var y := x * 10 + DigitOf(s[0]);
      if y > TWO_63 then None else LeadingInt(s[1..], y)
  }

  /**
   * `leadingFraction` from accumulator `x` and scale: digits are taken while the
   * value stays representable; later digits are skipped.
   */
  function LeadingFraction(s: string, x: nat, scale: nat, overflow: bool): (r: (nat, nat, string))
    requires scale >= 1
    ensures r.1 >= 1 && |r.2| <= |s|
    ensures r.2 == [] || !IsDigit(r.2[0])
    ensures s != [] && IsDigit(s[0]) ==> |r.2| < |s|
    decreases |s|
  {
    if s == [] || !IsDigit(s[0]) then (x, scale, s)
    else if overflow || x > (TWO_63 - 1) / 10 then LeadingFraction(s[1..], x, scale, true)
    else
      var y := x * 10 + DigitOf(s[0]);
      if y > TWO_63 then LeadingFraction(s[1..], x, scale, true)
      else LeadingFraction(s[1..], y, scale * 10, false)
  }

  /** The unit name: the longest prefix free of digits and periods. */
  function TakeUnit(s: string): (u: string)
    ensures |u| <= |s| && s[..|u|] == u
    ensures forall i :: 0 <= i < |u| ==> !IsDigit(u[i]) && u[i] != '.'
    ensures |u| < |s| ==> IsDigit(s[|u|]) || s[|u|] == '.'
    decreases |s|
  {
    if s == [] || IsDigit(s[0]) || s[0] == '.' then [] else [s[0]] + TakeUnit(s[1..])
  }

  /**
   * The number that starts a term: its integer part, its fraction digits with their
   * scale, and the text after it; at least one digit is required on one side of
   * the period.
   */
  function Number(s: string): (r: Result<(nat, nat, nat, string), DurationError>)
    requires s != []
    ensures r.Success? ==> r.value.0 <= TWO_63 && r.value.2 >= 1 && |r.value.3| < |s|
  {
    if !(s[0] == '.' || IsDigit(s[0])) then Failure(InvalidDuration)
    else match LeadingInt(s, 0)
      case None => Failure(InvalidDuration)
      case Some((v, afterInt)) =>
        var pre := |afterInt| != |s|;
        if afterInt != [] && afterInt[0] == '.' then
          var (f, scale, afterFrac) := LeadingFraction(afterInt[1..], 0, 1, false);
          var post := |afterFrac| != |afterInt| - 1;
          if !pre && !post then Failure(InvalidDuration) else Success((v, f, scale, afterFrac))
        else if !pre then Failure(InvalidDuration)
        else Success((v, 0, 1, afterInt))
  }

  /**
   * The nanoseconds of `v` and fraction `f / scale` units; None when the whole part
   * exceeds 2^63 / unit or the total exceeds 2^63. The fraction's share is computed
   * exactly and truncated.
   */
  function Scaled(v: nat, f: nat, scale: nat, unit: nat): (r: Option<nat>)
    requires scale >= 1 && unit >= 1
    ensures r.Some? ==> v * unit <= r.value <= TWO_63
    ensures f == 0 ==> (r.Some? <==> v * unit <= TWO_63)
  {
    if v > TWO_63 / unit then
      WholeOverflow(v, unit);
      None
    else
      WholeFits(v, unit);
      var whole := v * unit;
      var total := if f > 0 then whole + f * unit / scale else whole;
      if f > 0 && total > TWO_63 then None else Some(total)
  }

  lemma WholeFits(v: nat, unit: nat)
    requires unit >= 1 && v <= TWO_63 / unit
    ensures v * unit <= TWO_63
  {
    assert v * unit <= (TWO_63 / unit) * unit;
  }

  lemma WholeOverflow(v: nat, unit: nat)
    requires unit >= 1 && v > TWO_63 / unit
    ensures v * unit > TWO_63
  {
    assert v * unit >= (TWO_63 / unit + 1) * unit;
  }

  /** One term: its nanoseconds and the text after it. */
  function Term(s: string): (r: Result<(nat, string), DurationError>)
    requires s != []
    ensures r.Success? ==> r.value.0 <= TWO_63 && |r.value.1| < |s|
  {
    match Number(s)
    case Failure(e) => Failure(e)
    case Success((v, f, scale, rest)) =>
      var u := TakeUnit(rest);
      if u == [] then Failure(MissingUnit)
      else match UnitNanos(u)
        case None => Failure(UnknownUnit(u))
        case Some(unit) =>
          match Scaled(v, f, scale, unit)
          case None => Failure(InvalidDuration)
          case Some(total) => Success((total, rest[|u|..]))
  }

  /** The terms from accumulated `d`; the sum wraps like a `uint64` and may not exceed 2^63. */
  function Terms(s: string, d: nat): (r: Result<nat, DurationError>)
    requires d <= TWO_63
    ensures r.Success? ==> r.value <= TWO_63
    decreases |s|
  {
    if s == [] then Success(d)
    else match Term(s)
      case Failure(e) => Failure(e)
      case Success((v, rest)) =>
        var sum := (d + v) % TWO_64;
        if sum > TWO_63 then Failure(InvalidDuration) else Terms(rest, sum)
  }

  /** The magnitude after the sign: "0" alone is zero, and otherwise one or more terms. */
  function Magnitude(body: string): (r: Result<nat, DurationError>)
    ensures r.Success? ==> r.value <= TWO_63
    ensures body == [] ==> r == Failure(InvalidDuration)
  {
    if body == "0" then Success(0)
    else if body == [] then Failure(InvalidDuration)
    else Terms(body, 0)
  }

  /** `time.ParseDuration`: a magnitude of 2^63 is allowed only with a minus sign. */
  function ParseDuration(s: string): (r: Result<Int64, DurationError>)
    ensures s == [] || s == "-" || s == "+" ==> r == Failure(InvalidDuration)
    ensures s == "0" || s == "-0" || s == "+0" ==> r == Success(0)
  {
    var neg := s != [] && s[0] == '-';
    var body := if s != [] && (s[0] == '-' || s[0] == '+') then s[1..] else s;
    match Magnitude(body)
    case Failure(e) => Failure(e)
    case Success(d) =>
      if neg then
        var v: int := -(d as int);
        Success(v)
      else if d > TWO_63 - 1 then Failure(InvalidDuration)
      else Success(d)
  }

  /** Reading digits over a concatenation reads the first part's digits, then the second's. */
  lemma {:induction false} LeadingIntAppend(a: string, b: string, x: nat)
    requires x <= TWO_63
    requires forall i :: 0 <= i < |a| ==> IsDigit(a[i])
    ensures LeadingInt(a + b, x) ==
      match LeadingInt(a, x)
      case None => None
      case Some((y, _)) => LeadingInt(b, y)
    decreases |a|
  {
    if a == [] {
      assert a + b == b;
    } else {
      var s := a + b;
      assert s[0] == a[0] && s[1..] == a[1..] + b;
      var y := x * 10 + DigitOf(a[0]);
      if x <= TWO_63 / 10 && y <= TWO_63 {
        LeadingIntAppend(a[1..], b, y);
      }
    }
  }

  /** The decimal digits of a number up to 2^63 read back as that number. */
  lemma {:induction false} LeadingIntDecimal(n: nat)
    requires n <= TWO_63
    ensures LeadingInt(DecimalDigits(n), 0) == Some((n, []))
    decreases n
  {
    var c := DigitChar(n % 10);
    if n >= 10 {
      LeadingIntDecimal(n / 10);
      LeadingIntAppend(DecimalDigits(n / 10), [c], 0);
      assert n / 10 <= TWO_63 / 10;
      assert (n / 10) * 10 + DigitOf(c) == n;
      assert LeadingInt([c], n / 10) == LeadingInt([], n);
    } else {
      assert DecimalDigits(n) == [c];
      assert LeadingInt([c], 0) == LeadingInt([], n);
    }
  }

  lemma {:induction false} TakeUnitPrefix(u: string, rest: string)
    requires forall i :: 0 <= i < |u| ==> !IsDigit(u[i]) && u[i] != '.'
    requires rest == [] || IsDigit(rest[0]) || rest[0] == '.'
    ensures TakeUnit(u + rest) == u
    decreases |u|
  {
    if u == [] {
      assert u + rest == rest;
    } else {
      TakeUnitPrefix(u[1..], rest);
      assert (u + rest)[1..] == u[1..] + rest;
      assert u == [u[0]] + u[1..];
    }
  }

  /** A unit name holds no digit and no period, so it is read whole up to the next number. */
  lemma UnitName(u: string, rest: string)
    requires UnitNanos(u).Some?
    requires rest == [] || IsDigit(rest[0]) || rest[0] == '.'
    ensures u != [] && !IsDigit(u[0]) && u[0] != '.' && TakeUnit(u + rest) == u
  {
    assert forall i :: 0 <= i < |u| ==> !IsDigit(u[i]) && u[i] != '.';
    TakeUnitPrefix(u, rest);
  }

  /** The digits of a whole number, followed by a text that is not a number, are read as that number. */
  lemma NumberOfDigits(n: nat, u: string)
    requires n <= TWO_63 && u != [] && !IsDigit(u[0]) && u[0] != '.'
    ensures Number(DecimalDigits(n) + u) == Success((n, 0, 1, u))
  {
    var s := DecimalDigits(n) + u;
    LeadingIntDecimal(n);
    LeadingIntAppend(DecimalDigits(n), u, 0);
    assert LeadingInt(s, 0) == Some((n, u));
    assert s[0] == DecimalDigits(n)[0];
  }

  /** A whole number and a unit name make a term of that many units, while it is at most 2^63. */
  lemma TermOfWhole(n: nat, u: string, rest: string)
    requires UnitNanos(u).Some? && n * UnitNanos(u).value <= TWO_63
    requires rest == [] || IsDigit(rest[0]) || rest[0] == '.'
    ensures Term(DecimalDigits(n) + u + rest) == Success((n * UnitNanos(u).value, rest))
  {
    var unit := UnitNanos(u).value;
    var s := DecimalDigits(n) + u + rest;
    assert s == DecimalDigits(n) + (u + rest);
    assert Number(s) == Success((n, 0, 1, u + rest)) by {
      AtMostMultiple(n, unit);
      UnitName(u, rest);
      NumberOfDigits(n, u + rest);
    }
    assert TakeUnit(u + rest) == u by {
      UnitName(u, rest);
    }
    assert Scaled(n, 0, 1, unit) == Some(n * unit) by {
      ScaledWhole(n, unit);
    }
    assert (u + rest)[|u|..] == rest;
  }

  lemma AtMostMultiple(v: nat, unit: nat)
    requires unit >= 1
    ensures v <= v * unit
  {
    assert v * unit == v + v * (unit - 1);
  }

  lemma ScaledWhole(v: nat, unit: nat)
    requires unit >= 1 && v * unit <= TWO_63
    ensures Scaled(v, 0, 1, unit) == Some(v * unit)
  {
    if v > TWO_63 / unit {
      WholeOverflow(v, unit);
    }
  }

  /** A whole number followed by a unit name is that many units, while it fits an int64. */
  lemma ParseWholeTerm(n: nat, u: string)
    requires UnitNanos(u).Some? && n * UnitNanos(u).value < TWO_63
    ensures ParseDuration(DecimalDigits(n) + u) == Success(n * UnitNanos(u).value)
  {
    var unit := UnitNanos(u).value;
    var digits := DecimalDigits(n);
    var s := digits + u;
    var v := n * unit;
    assert Term(s) == Success((v, [])) by {
      TermOfWhole(n, u, []);
      assert s + [] == s;
    }
    assert (0 + v) % TWO_64 == v;
    assert Terms(s, 0) == Terms([], v) == Success(v);
    UnitName(u, []);
    assert s != "0" by {
      assert |s| >= 2;
    }
    assert Magnitude(s) == Success(n * unit);
    assert s[0] == digits[0] && s[0] != '-' && s[0] != '+';
  }

  /** Digits past 2^63 are refused by `leadingInt`. */
  lemma {:induction false} LeadingIntTooLarge(n: nat)
    requires n > TWO_63
    ensures LeadingInt(DecimalDigits(n), 0) == None
    decreases n
  {
    var c := DigitChar(n % 10);
    LeadingIntAppend(DecimalDigits(n / 10), [c], 0);
    if n / 10 > TWO_63 {
      LeadingIntTooLarge(n / 10);
    } else {
      LeadingIntDecimal(n / 10);
      assert (n / 10) * 10 + DigitOf(c) == n;
    }
  }

  /** A whole number whose term exceeds 2^63 nanoseconds makes the term invalid. */
  lemma TermTooLarge(n: nat, u: string)
    requires UnitNanos(u).Some? && n * UnitNanos(u).value > TWO_63
    ensures Term(DecimalDigits(n) + u) == Failure(InvalidDuration)
  {
    var unit := UnitNanos(u).value;
    var s := DecimalDigits(n) + u;
    UnitName(u, []);
    assert s[0] == DecimalDigits(n)[0];
    LeadingIntAppend(DecimalDigits(n), u, 0);
    if n <= TWO_63 {
      NumberOfDigits(n, u);
      assert u + [] == u;
      assert Scaled(n, 0, 1, unit) == None;
    } else {
      LeadingIntTooLarge(n);
      assert Number(s) == Failure(InvalidDuration);
    }
  }

  /** Text that makes one term is that term's magnitude, and a failing first term fails the magnitude. */
  lemma SingleTerm(s: string)
    requires |s| >= 2 && (Term(s).Success? ==> Term(s).value.1 == [])
    ensures Term(s).Failure? ==> Magnitude(s) == Failure(Term(s).error)
    ensures Term(s).Success? ==> Magnitude(s) == Success(Term(s).value.0)
  {
    assert s != "0";
    assert Magnitude(s) == Terms(s, 0);
    if Term(s).Success? {
      var v := Term(s).value.0;
      assert (0 + v) % TWO_64 == v;
      assert Terms(s, 0) == Terms([], v);
    }
  }

  /** Without a sign, the magnitude is the duration, except that 2^63 does not fit. */
  lemma Unsigned(s: string)
    requires s != [] && s[0] != '-' && s[0] != '+'
    ensures Magnitude(s).Failure? ==> ParseDuration(s) == Failure(Magnitude(s).error)
    ensures Magnitude(s).Success? && Magnitude(s).value < TWO_63 ==> ParseDuration(s) == Success(Magnitude(s).value)
    ensures Magnitude(s) == Success(TWO_63) ==> ParseDuration(s) == Failure(InvalidDuration)
  {
  }

  /**
   * The converse of `ParseWholeTerm`: without a minus sign, a whole term of 2^63
   * nanoseconds or more is refused.
   */
  lemma WholeTermOutOfRange(n: nat, u: string)
    requires UnitNanos(u).Some? && n * UnitNanos(u).value >= TWO_63
    ensures ParseDuration(DecimalDigits(n) + u) == Failure(InvalidDuration)
  {
    var unit := UnitNanos(u).value;
    var digits := DecimalDigits(n);
    var s := digits + u;
    assert u != [] by {
      UnitName(u, []);
    }
    if n * unit > TWO_63 {
      TermTooLarge(n, u);
    } else {
      assert Term(s) == Success((TWO_63, [])) by {
        TermOfWhole(n, u, []);
        assert s + [] == s;
      }
    }
    SingleTerm(s);
    assert s[0] == digits[0];
    Unsigned(s);
  }

  /** A number with one fraction digit, followed by a text that is not a number, is read as whole part and fraction. */
  lemma NumberWithFraction(a: nat, c: char, u: string)
    requires a <= TWO_63 && IsDigit(c)
    requires u != [] && !IsDigit(u[0]) && u[0] != '.'
    ensures Number(DecimalDigits(a) + "." + [c] + u) == Success((a, DigitOf(c), 10, u))
  {
    var afterInt := "." + [c] + u;
    var s := DecimalDigits(a) + afterInt;
    assert s == DecimalDigits(a) + "." + [c] + u;
    assert LeadingInt(s, 0) == Some((a, afterInt)) by {
      LeadingIntDecimal(a);
      LeadingIntAppend(DecimalDigits(a), afterInt, 0);
    }
    assert s[0] == DecimalDigits(a)[0];
    assert LeadingFraction(afterInt[1..], 0, 1, false) == (DigitOf(c), 10, u) by {
      assert afterInt[1..] == [c] + u;
      assert ([c] + u)[0] == c && ([c] + u)[1..] == u;
    }
  }

  /** A whole part, one fraction digit and a unit make one term of the whole units plus tenths of a unit, truncated. */
  lemma FractionTerm(a: nat, c: char, u: string)
    requires IsDigit(c) && UnitNanos(u).Some?
    requires a * UnitNanos(u).value + DigitOf(c) * UnitNanos(u).value / 10 <= TWO_63
    ensures Term(DecimalDigits(a) + "." + [c] + u)
         == Success((a * UnitNanos(u).value + DigitOf(c) * UnitNanos(u).value / 10, []))
  {
    var unit := UnitNanos(u).value;
    var total := a * unit + DigitOf(c) * unit / 10;
    var s := DecimalDigits(a) + "." + [c] + u;
    assert a <= TWO_63 / unit by {
      AtMostMultiple(a, unit);
      if a > TWO_63 / unit {
        WholeOverflow(a, unit);
      }
    }
    assert Number(s) == Success((a, DigitOf(c), 10, u)) by {
      UnitName(u, []);
      NumberWithFraction(a, c, u);
    }
    assert TakeUnit(u) == u by {
      UnitName(u, []);
      assert u + [] == u;
    }
    assert Scaled(a, DigitOf(c), 10, unit) == Some(total);
    assert u[|u|..] == [];
  }

  /**
   * A term with one fraction digit is the whole part plus that many tenths of the
   * unit, truncated to whole nanoseconds, while it fits an `int64`.
   */
  lemma ParseFractionTerm(a: nat, c: char, u: string)
    requires IsDigit(c) && UnitNanos(u).Some?
    requires a * UnitNanos(u).value + DigitOf(c) * UnitNanos(u).value / 10 < TWO_63
    ensures ParseDuration(DecimalDigits(a) + "." + [c] + u)
         == Success(a * UnitNanos(u).value + DigitOf(c) * UnitNanos(u).value / 10)
  {
    var s := DecimalDigits(a) + "." + [c] + u;
    FractionTerm(a, c, u);
    SingleTerm(s);
    assert s[0] == DecimalDigits(a)[0];
    Unsigned(s);
  }

  /**
   * Two whole terms in nanoseconds add up as `uint64`s: the sum is taken modulo
   * 2^64 and then must not exceed 2^63.
   */
  lemma TwoTerms(a: nat, b: nat)
    requires a <= TWO_63 && b <= TWO_63
    ensures Magnitude(DecimalDigits(a) + "ns" + DecimalDigits(b) + "ns") ==
      if (a + b) % TWO_64 > TWO_63 then Failure(InvalidDuration) else Success((a + b) % TWO_64)
  {
    var second := DecimalDigits(b) + "ns";
    var s := DecimalDigits(a) + "ns" + second;
    assert s == DecimalDigits(a) + "ns" + DecimalDigits(b) + "ns";
    NanosecondTerm(a, second);
    NanosecondTerm(b, []);
    assert second + [] == second;
    FirstTerm(s, second, a);
    LastTerm(second, a, b);
    MagnitudeOfTerms(s);
  }

  lemma NanosecondTerm(n: nat, rest: string)
    requires n <= TWO_63
    requires rest == [] || IsDigit(rest[0]) || rest[0] == '.'
    ensures Term(DecimalDigits(n) + "ns" + rest) == Success((n, rest))
  {
    assert UnitNanos("ns") == Some(1);
    TermOfWhole(n, "ns", rest);
  }

  lemma MagnitudeOfTerms(s: string)
    requires |s| >= 2
    ensures Magnitude(s) == Terms(s, 0)
  {
  }

  lemma FirstTerm(s: string, rest: string, v: nat)
    requires s != [] && v <= TWO_63 && Term(s) == Success((v, rest))
    ensures Terms(s, 0) == Terms(rest, v)
  {
    assert (0 + v) % TWO_64 == v;
  }

  lemma LastTerm(t: string, d: nat, v: nat)
    requires t != [] && d <= TWO_63 && Term(t) == Success((v, []))
    ensures Terms(t, d) ==
      if (d + v) % TWO_64 > TWO_63 then Failure(InvalidDuration) else Success((d + v) % TWO_64)
  {
  }

  /**
   * Two terms of 2^63 nanoseconds each add up to 2^64, which wraps to zero and
   * passes the "at most 2^63" test, so the magnitude is zero.
   */
  lemma WrappingSum(a: nat, b: nat)
    requires a <= TWO_63 && b <= TWO_63 && a + b == TWO_64
    ensures Magnitude(DecimalDigits(a) + "ns" + DecimalDigits(b) + "ns") == Success(0)
  {
    assert (a + b) % TWO_64 == 0;
    TwoTerms(a, b);
  }

  /** A leading minus sign negates what the unsigned text denotes. */
  lemma NegateDuration(x: string)
    requires x == [] || (x[0] != '-' && x[0] != '+')
    ensures ParseDuration(x).Success? ==> ParseDuration("-" + x) == Success(-ParseDuration(x).value)
  {
    var s := "-" + x;
    assert s[0] == '-' && s[1..] == x;
  }

  /** `DynDuration`: registers the flag, marks it dynamic and returns its value cell. */
  method DynDuration(flagSet: FlagSet, name: string, value: Int64, usage: string, shown: string)
    returns (d: DynValue<Int64, DurationError>)
    requires flagSet.Valid() && name !in flagSet.flags
    modifies flagSet
    ensures fresh(d) && d.Get() == value && d.validator == None && d.Type() == "dyn_duration"
    ensures d.parse == ParseDuration
    ensures flagSet.Valid() && flagSet.order == old(flagSet.order) + [name]
    ensures flagSet.flags == old(flagSet.flags)[name :=
      MarkDynamic(Flag(name, usage, shown, shown, "dyn_duration", false, None))]
  {
    d := new DynValue(value, ParseDuration, "dyn_duration");
    flagSet.AddFlag(Flag(name, usage, shown, shown, "dyn_duration", false, None));
    SetFlagDynamic(flagSet, name);
  }
}
