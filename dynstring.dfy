/**
 * `DynString` (dynstring.go): a dynamic flag holding a string. `Set` does no
 * parsing — the input itself is the candidate the validator judges.
 */
module StringFlags {
  import opened Wrappers
  import opened Registry
  import opened Common
  import opened DynValues

  /** The error type of a parse that never fails. */
  datatype NoParseError = NoParseError

  /** The parse step of `DynString.Set`: every input is accepted as it is. */
  function Verbatim(input: string): (r: Result<string, NoParseError>) {
    Success(input)
  }

  /** `Set` succeeds exactly when the validator (if any) accepts the input, and then stores the input itself. */
  lemma {:induction false} SetStoresInput(current: string, validator: Option<string -> bool>, input: string)
    ensures SetOutcome(current, validator, Verbatim(input)).1.None? <==> Accepts(validator, input)
    ensures validator.None? ==> SetOutcome(current, validator, Verbatim(input)) == (input, None)
    ensures !Accepts(validator, input) ==> SetOutcome(current, validator, Verbatim(input)) == (current, Some(Rejected))
  {
  }

  /** `DynString`: registers the flag, marks it dynamic and returns its value cell. */
  method DynString(flagSet: FlagSet, name: string, value: string, usage: string)
    returns (d: DynValue<string, NoParseError>)
    requires flagSet.Valid() && name !in flagSet.flags
    modifies flagSet
    ensures fresh(d) && d.Get() == value && d.validator == None && d.Type() == "dyn_string"
    ensures d.parse == Verbatim
    ensures flagSet.Valid() && flagSet.order == old(flagSet.order) + [name]
    ensures flagSet.flags == old(flagSet.flags)[name :=
      MarkDynamic(Flag(name, usage, value, value, "dyn_string", false, None))]
  {
    d := new DynValue(value, Verbatim, "dyn_string");
    flagSet.AddFlag(Flag(name, usage, value, value, "dyn_string", false, None));
    SetFlagDynamic(flagSet, name);
  }

  /** `String`: `%v` of a string is the string itself. */
  function String(d: DynValue<string, NoParseError>): (s: string)
    reads d
    ensures s == d.Get()
  {
    d.current
  }

  /**
   * `ValidateDynStringMatchesRegex`: accepts exactly the values the matcher matches.
   * The regular expression engine is not modelled; `matches` stands for `MatchString`.
   */
  function ValidateDynStringMatchesRegex(matches: string -> bool): (check: string -> bool)
    ensures forall v :: check(v) == matches(v)
  {
    v => matches(v)
  }
}
