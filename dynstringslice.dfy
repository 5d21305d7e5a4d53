/**
 * `DynStringSlice` (dynstringslice.go): a dynamic flag holding a list of strings,
 * set from the first CSV record of the input.
 */
module StringSliceFlags {
  import opened Wrappers
  import opened Text
  import opened Registry
  import opened Common
  import opened DynValues
  import opened Csv

  /** `fmt`'s `%v` of a `[]string`: the elements separated by spaces, in brackets. */
  function Render(xs: seq<string>): (s: string)
    ensures |s| >= 2 && s[0] == '[' && s[|s| - 1] == ']'
  {
    "[" + Join(xs, " ") + "]"
  }

  /** `DynStringSlice`: registers the flag, marks it dynamic and returns its value cell. */
  method DynStringSlice(flagSet: FlagSet, name: string, value: seq<string>, usage: string)
    returns (d: DynValue<seq<string>, CsvError>)
    requires flagSet.Valid() && name !in flagSet.flags
    modifies flagSet
    ensures fresh(d) && d.Get() == value && d.validator == None && d.Type() == "dyn_stringslice"
    ensures d.parse == ReadRecord
    ensures flagSet.Valid() && flagSet.order == old(flagSet.order) + [name]
    ensures flagSet.flags == old(flagSet.flags)[name :=
      MarkDynamic(Flag(name, usage, Render(value), Render(value), "dyn_stringslice", false, None))]
  {
    d := new DynValue(value, ReadRecord, "dyn_stringslice");
    flagSet.AddFlag(Flag(name, usage, Render(value), Render(value), "dyn_stringslice", false, None));
    SetFlagDynamic(flagSet, name);
  }

  /**
   * `String`: the bracketed rendering; when no element holds a space, the text
   * between the brackets splits back into the elements.
   */
  function String(d: DynValue<seq<string>, CsvError>): (s: string)
    reads d
    ensures |s| >= 2 && s[0] == '[' && s[|s| - 1] == ']'
    ensures |d.Get()| >= 1 && (forall i :: 0 <= i < |d.Get()| ==> ' ' !in d.Get()[i]) ==>
      Split(s[1..|s| - 1], ' ') == d.Get()
  {
    RenderSplits(d.current);
    Render(d.current)
  }

  /** The inside of the rendering splits at spaces into the elements, when none holds a space. */
  lemma RenderSplits(xs: seq<string>)
    ensures |xs| >= 1 && (forall i :: 0 <= i < |xs| ==> ' ' !in xs[i]) ==>
      Split(Render(xs)[1..|Render(xs)| - 1], ' ') == xs
  {
    var s := Render(xs);
    assert s[1..|s| - 1] == Join(xs, " ");
    if |xs| >= 1 && (forall i :: 0 <= i < |xs| ==> ' ' !in xs[i]) {
      SplitJoin(xs, ' ');
    }
  }

  /** `ValidateDynStringSliceMinElements`: rejects exactly the lists shorter than `count`. */
  function ValidateDynStringSliceMinElements(count: int): (check: seq<string> -> bool)
    ensures forall v :: check(v) <==> |v| >= count
  {
    v => !(|v| < count)
  }
}
