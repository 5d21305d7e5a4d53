/**
 * The shape every dynamic flag value shares (dynint64.go, dynstring.go,
 * dynstringslice.go, dynduration.go, dynjson.go): a cell holding the current value,
 * an optional validator, the type's parser and its `Type()` name. `Set` parses,
 * then asks the validator, then publishes; on any failure the value is unchanged.
 * The atomic load and store of the original are plain reads and writes here.
 */
module DynValues {
  import opened Wrappers

  /** Why a `Set` was refused: the parser's error, or the validator's rejection. */
  datatype SetError<+E> = ParseFailed(cause: E) | Rejected

  /** A missing validator accepts every value. */
  predicate Accepts<T>(validator: Option<T -> bool>, v: T) {
    validator.None? || validator.value(v)
  }

  /**
   * The value after `Set` and its error: the parsed candidate is published exactly
   * when it parsed and the validator accepted it; otherwise the old value stays.
   */
  function SetOutcome<T, E>(current: T, validator: Option<T -> bool>, parsed: Result<T, E>)
    : (r: (T, Option<SetError<E>>))
    ensures r.1.None? <==> parsed.Success? && Accepts(validator, parsed.value)
    ensures r.1.None? ==> r.0 == parsed.value
    ensures r.1.Some? ==> r.0 == current
    ensures parsed.Failure? ==> r.1 == Some(ParseFailed(parsed.error))
    ensures parsed.Success? && !Accepts(validator, parsed.value) ==> r.1 == Some(Rejected)
  {
    match parsed
    case Failure(e) => (current, Some(ParseFailed(e)))
    case Success(v) => if Accepts(validator, v) then (v, None) else (current, Some(Rejected))
  }

  class DynValue<T, E> {
    var current: T
    var validator: Option<T -> bool>
    const parse: string -> Result<T, E>
    const typeName: string

    constructor (initial: T, parse: string -> Result<T, E>, typeName: string)
      ensures current == initial && validator == None
      ensures this.parse == parse && this.typeName == typeName
    {
      current := initial;
      validator := None;
      this.parse := parse;
      this.typeName := typeName;
    }

    /** `Get`: the value last published. */
    function Get(): (v: T)
      reads this
      ensures v == current
    {
      current
    }

    /** `Type`: the name the registry shows for this kind of flag. */
    function Type(): (name: string)
      ensures name == typeName
    {
      typeName
    }

    /** `Set`: parse, validate, publish. */
    method Set(input: string) returns (err: Option<SetError<E>>)
      modifies this
      ensures validator == old(validator)
      ensures (current, err) == SetOutcome(old(current), validator, parse(input))
    {
      var parsed := parse(input);
      match parsed
      case Failure(e) =>
        err := Some(ParseFailed(e));
      case Success(v) =>
        if Accepts(validator, v) {
          current := v;
          err := None;
        } else {
          err := Some(Rejected);
        }
    }

    /**
     * `WithValidator`: replaces any previous validator, and None (Go's nil) switches
     * validation off; the value is untouched.
     */
    method WithValidator(check: Option<T -> bool>)
      modifies this
      ensures validator == check && current == old(current)
    {
      validator := check;
    }
  }
}
