/**
 * `DynJSON` (dynjson.go): a dynamic flag holding a JSON-decodable struct. Each
 * `Set` decodes into a fresh zero value of the struct type, so fields missing from
 * the input are zero rather than carried over. The JSON codec itself is not
 * modelled: `Codec` supplies the zero value, decoding and the two encodings.
 */
module JsonFlags {
  import opened Wrappers
  import opened Registry
  import opened Common
  import opened DynValues

  /** The codec's error, carried unchanged to the caller of `Set`. */
  datatype JsonError = JsonError(message: string)

  /** `json.Unmarshal` into a given value, `json.Marshal` and `json.MarshalIndent` with two spaces. */
  datatype Codec<!J> = Codec(
    zero: J,
    unmarshal: (J, string) -> Result<J, JsonError>,
    marshal: J -> Option<string>,
    marshalIndent: J -> Option<string>)

  /**
   * The argument of `DynJSON`: a pointer to a struct of the codec's type, or
   * anything else, which the constructor refuses with a panic.
   */
  datatype JsonArgument<J> = StructPointer(target: J) | NotStructPointer

  /** The parse step of `Set`: decode into a fresh zero value. */
  function Decode<J>(codec: Codec<J>, input: string): (r: Result<J, JsonError>) {
    codec.unmarshal(codec.zero, input)
  }

  /**
   * The new value does not depend on the old one: from any two current values, the
   * same input with the same validator gives the same error, and on success the same
   * value, which is the input decoded over the zero value.
   */
  lemma {:induction false} SetForgetsPrevious<J>(codec: Codec<J>, validator: Option<J -> bool>, input: string, a: J, b: J)
    ensures SetOutcome(a, validator, Decode(codec, input)).1 == SetOutcome(b, validator, Decode(codec, input)).1
    ensures SetOutcome(a, validator, Decode(codec, input)).1.None? ==>
      SetOutcome(a, validator, Decode(codec, input)).0 == SetOutcome(b, validator, Decode(codec, input)).0 ==
      codec.unmarshal(codec.zero, input).value
  {
  }

  /** `String`: the compact encoding of the current value, or "ERR" when encoding fails. */
  function String<J>(codec: Codec<J>, d: DynValue<J, JsonError>): (s: string)
    reads d
    ensures codec.marshal(d.Get()).Some? ==> s == codec.marshal(d.Get()).value
    ensures codec.marshal(d.Get()).None? ==> s == "ERR"
  {
    match codec.marshal(d.current)
    case Some(out) => out
    case None => "ERR"
  }

  /** `PrettyString`: the indented encoding of the current value, or "ERR" when encoding fails. */
  function PrettyString<J>(codec: Codec<J>, d: DynValue<J, JsonError>): (s: string)
    reads d
    ensures codec.marshalIndent(d.Get()).Some? ==> s == codec.marshalIndent(d.Get()).value
    ensures codec.marshalIndent(d.Get()).None? ==> s == "ERR"
  {
    match codec.marshalIndent(d.current)
    case Some(out) => out
    case None => "ERR"
  }

  /** `DynJSON`: registers the flag, marks it dynamic and returns its value cell, which starts at the passed value. */
  method DynJSON<J>(flagSet: FlagSet, name: string, value: JsonArgument<J>, usage: string, codec: Codec<J>)
    returns (d: DynValue<J, JsonError>)
    requires value.StructPointer?
    requires flagSet.Valid() && name !in flagSet.flags
    modifies flagSet
    ensures fresh(d) && d.Get() == value.target && d.validator == None && d.Type() == "dyn_json"
    ensures forall input :: d.parse(input) == Decode(codec, input)
    ensures flagSet.Valid() && flagSet.order == old(flagSet.order) + [name]
    ensures flagSet.flags == old(flagSet.flags)[name :=
      MarkDynamic(Flag(name, usage, String(codec, d), String(codec, d), "dyn_json", false, None))]
  {
    d := new DynValue(value.target, input => Decode(codec, input), "dyn_json");
    var shown := String(codec, d);
    flagSet.AddFlag(Flag(name, usage, shown, shown, "dyn_json", false, None));
    SetFlagDynamic(flagSet, name);
  }
}
