/**
 * The dynamic marker (common.go): a flag is dynamic when its annotation map holds
 * the key "__is_dynamic".
 */
module Common {
  import opened Wrappers
  import opened Registry

  const DynamicMarker: string := "__is_dynamic"

  /**
   * The annotations after `setFlagDynamic`: a nil map is replaced by a fresh one,
   * the marker maps to an empty list, and every other entry is kept as it was.
   */
  function WithMarker(ann: Option<Annotations>): (r: Annotations)
    ensures DynamicMarker in r && r[DynamicMarker] == []
    ensures forall k :: k != DynamicMarker ==> (k in r <==> ann.Some? && k in ann.value)
    ensures forall k :: k != DynamicMarker && k in r ==> ann.Some? && r[k] == ann.value[k]
  {
    match ann
    case None => map[DynamicMarker := []]
    case Some(m) => m[DynamicMarker := []]
  }

  /** `IsFlagDynamic`: the marker key is present; a nil map has no keys. */
  predicate IsFlagDynamic(f: Flag): (r: bool)
    ensures f.annotations == None ==> !r
  {
    f.annotations.Some? && DynamicMarker in f.annotations.value
  }

  /**
   * The flag with the marker added, as `setFlagDynamic` leaves it: dynamic, with
   * nothing but its annotations changed and every other annotation kept.
   */
  function MarkDynamic(f: Flag): (r: Flag)
    ensures IsFlagDynamic(r)
    ensures r.(annotations := f.annotations) == f
    ensures f.annotations.Some? ==>
      forall k :: k in f.annotations.value && k != DynamicMarker ==>
        k in r.annotations.value && r.annotations.value[k] == f.annotations.value[k]
  {
    f.(annotations := Some(WithMarker(f.annotations)))
  }

  /** Marking twice is marking once. */
  lemma MarkDynamicIdempotent(f: Flag)
    ensures MarkDynamic(MarkDynamic(f)) == MarkDynamic(f)
  {
    assert WithMarker(Some(WithMarker(f.annotations))) == WithMarker(f.annotations);
  }

  /** `setFlagDynamic` applied to the flag registered under `name`. */
  method SetFlagDynamic(fs: FlagSet, name: string)
    requires fs.Valid() && name in fs.flags
    modifies fs
    ensures fs.Valid() && fs.order == old(fs.order)
    ensures fs.flags == old(fs.flags)[name := MarkDynamic(old(fs.flags)[name])]
    ensures IsFlagDynamic(fs.flags[name])
  {
    fs.flags := fs.flags[name := MarkDynamic(fs.flags[name])];
  }
}
