/**
 * The flag registry the dynamic flags live in (pflag's `FlagSet`). It is an
 * external collaborator: only the parts the updaters, the checksum and the status
 * endpoint use are modelled — lookup by name, `Set` by name (which records the
 * "changed" bit), registration, and visiting flags in the registry's order.
 *
 * What a flag's own `Value.Set` does with a string is abstracted as `parse`:
 * for a flag name and an input it gives the flag's new rendering (`Value.String()`)
 * when the input is accepted, or None when it is rejected.
 */
module Registry {
  import opened Wrappers

  type Annotations = map<string, seq<string>>

  /** A registered flag; `annotations` is None for Go's nil map. */
  datatype Flag = Flag(
    name: string,
    usage: string,
    value: string,
    defValue: string,
    typeName: string,
    changed: bool,
    annotations: Option<Annotations>)

  /** A flag's `Value.Set`: Some(new rendering) when `input` is accepted for flag `name`. */
  type Parser = (string, string) -> Option<string>

  datatype SetError = NoSuchFlag(name: string) | InvalidValue(name: string, input: string)

  /** `FlagSet.Set(name, input)` on the registry's contents. */
  function TrySet(flags: map<string, Flag>, parse: Parser, name: string, input: string)
    : (r: Result<map<string, Flag>, SetError>)
    ensures r.Failure? <==> name !in flags || parse(name, input).None?
    ensures r.Failure? ==> r.error == if name in flags then InvalidValue(name, input) else NoSuchFlag(name)
    ensures r.Success? ==> r.value.Keys == flags.Keys
    ensures r.Success? ==> r.value[name] == flags[name].(value := parse(name, input).value, changed := true)
    ensures r.Success? ==> forall n :: n in flags && n != name ==> r.value[n] == flags[n]
  {
    if name !in flags then Failure(NoSuchFlag(name))
    else match parse(name, input)
      case None => Failure(InvalidValue(name, input))
      case Some(rendered) => Success(flags[name := flags[name].(value := rendered, changed := true)])
  }

  predicate Distinct(names: seq<string>) {
    forall i, j :: 0 <= i < j < |names| ==> names[i] != names[j]
  }

  /** Every registered name occurs once in the visiting order, and each entry carries its own name. */
  predicate WellFormed(flags: map<string, Flag>, order: seq<string>) {
    && Distinct(order)
    && (forall i :: 0 <= i < |order| ==> order[i] in flags)
    && (forall n :: n in flags ==> n in order)
    && (forall n :: n in flags ==> flags[n].name == n)
  }

  /** The flags named by `order`, in that order. */
  function InOrder(flags: map<string, Flag>, order: seq<string>): (r: seq<Flag>)
    requires forall i :: 0 <= i < |order| ==> order[i] in flags
    ensures |r| == |order| && forall i :: 0 <= i < |order| ==> r[i] == flags[order[i]]
    decreases |order|
  {
    if order == [] then [] else InOrder(flags, order[..|order| - 1]) + [flags[order[|order| - 1]]]
  }

  /** Only the flags whose "changed" bit is set, in the same order (pflag's `Visit`). */
  function ChangedOnly(fs: seq<Flag>): (r: seq<Flag>)
    ensures forall i :: 0 <= i < |r| ==> r[i].changed && r[i] in fs
    ensures forall f :: f in fs && f.changed ==> f in r
    decreases |fs|
  {
    if fs == [] then []
    else ChangedOnly(fs[..|fs| - 1]) + (if fs[|fs| - 1].changed then [fs[|fs| - 1]] else [])
  }

  class FlagSet {
    var flags: map<string, Flag>
    var order: seq<string>
    const parse: Parser

    ghost predicate Valid()
      reads this
    {
      WellFormed(flags, order)
    }

    constructor (parse: Parser)
      ensures Valid() && flags == map[] && order == [] && this.parse == parse
    {
      flags := map[];
      order := [];
      this.parse := parse;
    }

    /** `FlagSet.Lookup`: None plays the part of Go's nil. */
    function Lookup(name: string): (r: Option<Flag>)
      reads this
      ensures r.Some? <==> name in flags
      ensures r.Some? ==> r.value == flags[name]
    {
      if name in flags then Some(flags[name]) else None
    }

    /** `FlagSet.AddFlag`; pflag panics on a second flag with the same name. */
    method AddFlag(f: Flag)
      requires Valid() && f.name !in flags
      modifies this
      ensures Valid()
      ensures flags == old(flags)[f.name := f] && order == old(order) + [f.name]
    {
      flags := flags[f.name := f];
      order := order + [f.name];
    }

    /** `FlagSet.Set`: unknown names and rejected inputs change nothing. */
    method Set(name: string, input: string) returns (err: Option<SetError>)
      requires Valid()
      modifies this
      ensures Valid() && order == old(order)
      ensures TrySet(old(flags), parse, name, input).Success? ==>
        err == None && flags == TrySet(old(flags), parse, name, input).value
      ensures TrySet(old(flags), parse, name, input).Failure? ==>
        err == Some(TrySet(old(flags), parse, name, input).error) && flags == old(flags)
    {
      match TrySet(flags, parse, name, input)
      case Success(m) =>
        flags := m;
        err := None;
      case Failure(e) =>
        err := Some(e);
    }

    /** The flags `VisitAll` visits, in its order. */
    function All(): (r: seq<Flag>)
      reads this
      requires Valid()
      ensures |r| == |order| && forall i :: 0 <= i < |order| ==> r[i] == flags[order[i]]
      ensures forall n :: n in flags ==> flags[n] in r
      ensures forall f :: f in r ==> f.name in flags && flags[f.name] == f
    {
      InOrder(flags, order)
    }
  }
}
