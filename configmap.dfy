/**
 * The Kubernetes ConfigMap updater (configmap/updater.go): one file per flag in a
 * directory, the file's name being the flag's name and its content the value.
 * The directory is given as a snapshot: the listing `ioutil.ReadDir` would return
 * and the contents `ioutil.ReadFile` would return, keyed by full path.
 */
module ConfigMap {
  import opened Wrappers
  import opened Text
  import opened Registry
  import opened Common

  /** ConfigMap's own entries ("..data", "..2016_...") start with this prefix. */
  const K8sInternalsPrefix: string := ".."
  /** The symlink Kubernetes swaps atomically when a ConfigMap changes. */
  const K8sDataSymlink: string := "..data"

  /** A snapshot of the watched directory. `listing` is None when the directory cannot be read. */
  datatype Files = Files(listing: Option<seq<string>>, contents: map<string, string>)

  /** Why one file was not applied. */
  datatype FileError =
    | FlagNotFound
    | FlagNotDynamic
    | ReadFailed(path: string)
    | SetFailed(cause: SetError)

  /** What the updater's methods report. */
  datatype UpdaterError =
    | AlreadyInitialized
    | AlreadyStarted
    | NotUpdating
    | DirUnreadable
    | FileErrors(errors: seq<(string, FileError)>)

  /** The registry's contents after an operation, with the errors it reported. */
  datatype Outcome = Outcome(errors: seq<(string, FileError)>, flags: map<string, Flag>)

  /** `isK8sInternalDirectory`: the base name starts with "..". */
  predicate IsK8sInternalDirectory(filePath: string): (r: bool)
    ensures filePath == [] ==> !r
    ensures r ==> Base(filePath) != "/" && Base(filePath) != "."
  {
    HasPrefix(Base(filePath), K8sInternalsPrefix)
  }

  /** A file of the watched directory is internal exactly when its own name starts with "..". */
  lemma InternalEntry(dirPath: string, name: string)
    requires name != [] && '/' !in name
    ensures IsK8sInternalDirectory(JoinPath(dirPath, name)) <==> HasPrefix(name, K8sInternalsPrefix)
  {
    BaseOfJoin(dirPath, name);
  }

  /** A `FlagSet.Set` keeps every flag's annotations, so whether it is dynamic. */
  lemma TrySetKeepsDynamic(flags: map<string, Flag>, parse: Parser, name: string, input: string)
    requires TrySet(flags, parse, name, input).Success?
    ensures forall n :: n in flags ==>
      IsFlagDynamic(TrySet(flags, parse, name, input).value[n]) == IsFlagDynamic(flags[n])
  {
  }

  /**
   * `readFlagFile`: the flag named by the file's base name must exist and, when
   * `dynamicOnly`, be dynamic; otherwise nothing is read and nothing set. Then the
   * whole content, untrimmed, goes through `FlagSet.Set`.
   */
  function ReadFlagFileSpec(flags: map<string, Flag>, parse: Parser, files: Files, fullPath: string, dynamicOnly: bool)
    : (r: (Option<FileError>, map<string, Flag>))
    ensures r.1.Keys == flags.Keys
    ensures forall n :: n in flags ==> IsFlagDynamic(r.1[n]) == IsFlagDynamic(flags[n])
    ensures r.0 == Some(FlagNotDynamic) ==> dynamicOnly
  {
    var name := Base(fullPath);
    if name !in flags then (Some(FlagNotFound), flags)
    else if dynamicOnly && !IsFlagDynamic(flags[name]) then (Some(FlagNotDynamic), flags)
    else if fullPath !in files.contents then (Some(ReadFailed(fullPath)), flags)
    else
      match TrySet(flags, parse, name, files.contents[fullPath])
      case Success(m) =>
        TrySetKeepsDynamic(flags, parse, name, files.contents[fullPath]);
        (None, m)
      case Failure(e) => (Some(SetFailed(e)), flags)
  }

  /**
   * The cases of `readFlagFile`: an unknown name, or a static flag when only
   * dynamic ones are wanted, is refused before anything is read; an unreadable
   * file is an error; otherwise the outcome is that of `FlagSet.Set` with the
   * file's whole content.
   */
  lemma ReadFlagFileCases(flags: map<string, Flag>, parse: Parser, files: Files, fullPath: string, dynamicOnly: bool)
    ensures var r := ReadFlagFileSpec(flags, parse, files, fullPath, dynamicOnly);
      var name := Base(fullPath);
      && (name !in flags ==> r == (Some(FlagNotFound), flags))
      && (name in flags && dynamicOnly && !IsFlagDynamic(flags[name]) ==> r == (Some(FlagNotDynamic), flags))
      && (name in flags && (!dynamicOnly || IsFlagDynamic(flags[name])) ==>
            if fullPath !in files.contents then r == (Some(ReadFailed(fullPath)), flags)
            else
              var attempt := TrySet(flags, parse, name, files.contents[fullPath]);
              if attempt.Success? then r == (None, attempt.value) else r == (Some(SetFailed(attempt.error)), flags))
  {
  }

  /** A watched file naming a static flag is refused when only dynamic flags are wanted: nothing is read or set. */
  lemma StaticFileRefused(flags: map<string, Flag>, parse: Parser, files: Files, fullPath: string)
    requires Base(fullPath) in flags && !IsFlagDynamic(flags[Base(fullPath)])
    ensures ReadFlagFileSpec(flags, parse, files, fullPath, true) == (Some(FlagNotDynamic), flags)
  {
  }

  /** The error `readAll` records for one file: none, or the file's own error except a tolerated "not dynamic". */
  function Reported(name: string, err: Option<FileError>, dynamicOnly: bool): (r: seq<(string, FileError)>)
    ensures |r| <= 1
    ensures r == [] <==> err.None? || (err == Some(FlagNotDynamic) && dynamicOnly)
    ensures r != [] ==> r[0] == (name, err.value)
  {
    if err.None? || (err == Some(FlagNotDynamic) && dynamicOnly) then [] else [(name, err.value)]
  }

  /**
   * `readAll` over the listed names: internal entries are skipped, every other
   * file is attempted in listing order, and its error (if reported) is tagged
   * with the file's name.
   */
  function ReadAllSpec(flags: map<string, Flag>, parse: Parser, files: Files, dirPath: string,
                       names: seq<string>, dynamicOnly: bool): (r: Outcome)
    ensures r.flags.Keys == flags.Keys
    ensures forall n :: n in flags ==> IsFlagDynamic(r.flags[n]) == IsFlagDynamic(flags[n])
    ensures forall k :: 0 <= k < |r.errors| ==>
      r.errors[k].0 in names && !HasPrefix(Base(r.errors[k].0), K8sInternalsPrefix)
    decreases |names|
  {
    if names == [] then Outcome([], flags)
    else
      var before := ReadAllSpec(flags, parse, files, dirPath, names[..|names| - 1], dynamicOnly);
      var name := names[|names| - 1];
      if HasPrefix(Base(name), K8sInternalsPrefix) then before
      else
        var (err, after) := ReadFlagFileSpec(before.flags, parse, files, JoinPath(dirPath, name), dynamicOnly);
        Outcome(before.errors + Reported(name, err, dynamicOnly), after)
  }

  /**
   * The re-read after a ConfigMap swap leaves static flags alone, and a static
   * flag's file is then not an error.
   */
  lemma {:induction false} DynamicOnlyKeepsStatic(flags: map<string, Flag>, parse: Parser, files: Files, dirPath: string,
                                                  names: seq<string>, n: string)
    requires n in flags && !IsFlagDynamic(flags[n])
    ensures ReadAllSpec(flags, parse, files, dirPath, names, true).flags[n] == flags[n]
    ensures forall k :: 0 <= k < |ReadAllSpec(flags, parse, files, dirPath, names, true).errors| ==>
      ReadAllSpec(flags, parse, files, dirPath, names, true).errors[k].1 != FlagNotDynamic
    decreases |names|
  {
    if names != [] {
      var before := ReadAllSpec(flags, parse, files, dirPath, names[..|names| - 1], true);
      DynamicOnlyKeepsStatic(flags, parse, files, dirPath, names[..|names| - 1], n);
      var name := names[|names| - 1];
      if !HasPrefix(Base(name), K8sInternalsPrefix) {
        var full := JoinPath(dirPath, name);
        var r := ReadFlagFileSpec(before.flags, parse, files, full, true);
        assert r.1[n] == before.flags[n] by {
          ReadFlagFileCases(before.flags, parse, files, full, true);
        }
        assert r.0 != Some(FlagNotDynamic) ==> Reported(name, r.0, true) == [] || Reported(name, r.0, true)[0].1 != FlagNotDynamic;
      }
    }
  }

  /** A directory holding only ConfigMap internals changes nothing and reports nothing. */
  lemma {:induction false} OnlyInternals(flags: map<string, Flag>, parse: Parser, files: Files, dirPath: string,
                                         names: seq<string>, dynamicOnly: bool)
    requires forall i :: 0 <= i < |names| ==> HasPrefix(Base(names[i]), K8sInternalsPrefix)
    ensures ReadAllSpec(flags, parse, files, dirPath, names, dynamicOnly) == Outcome([], flags)
    decreases |names|
  {
    if names != [] {
      OnlyInternals(flags, parse, files, dirPath, names[..|names| - 1], dynamicOnly);
    }
  }

  /** A directory entry: a non-empty name without a slash. */
  predicate EntryName(name: string) {
    name != [] && '/' !in name
  }

  /** Reading one file leaves every flag of another name as it was. */
  lemma OtherFlagKept(flags: map<string, Flag>, parse: Parser, files: Files, fullPath: string, dynamicOnly: bool, n: string)
    requires n in flags && Base(fullPath) != n
    ensures ReadFlagFileSpec(flags, parse, files, fullPath, dynamicOnly).1[n] == flags[n]
  {
  }

  /** A flag with no file of its name keeps its value. */
  lemma {:induction false} Untouched(flags: map<string, Flag>, parse: Parser, files: Files, dirPath: string,
                                     names: seq<string>, dynamicOnly: bool, n: string)
    requires forall i :: 0 <= i < |names| ==> EntryName(names[i])
    requires n in flags && n !in names
    ensures ReadAllSpec(flags, parse, files, dirPath, names, dynamicOnly).flags[n] == flags[n]
    decreases |names|
  {
    if names != [] {
      var init := names[..|names| - 1];
      var name := names[|names| - 1];
      assert forall i :: 0 <= i < |init| ==> init[i] == names[i];
      Untouched(flags, parse, files, dirPath, init, dynamicOnly, n);
      var before := ReadAllSpec(flags, parse, files, dirPath, init, dynamicOnly);
      if !HasPrefix(Base(name), K8sInternalsPrefix) {
        var path := JoinPath(dirPath, name);
        BaseOfJoin(dirPath, name);
        assert Base(path) != n;
        OtherFlagKept(before.flags, parse, files, path, dynamicOnly, n);
      }
    }
  }

  /**
   * Every file is attempted whatever happened before it: a listed file whose
   * name matches no flag is reported as not found.
   */
  lemma {:induction false} EveryFileAttempted(flags: map<string, Flag>, parse: Parser, files: Files, dirPath: string,
                                              names: seq<string>, dynamicOnly: bool, i: nat)
    requires forall k :: 0 <= k < |names| ==> EntryName(names[k])
    requires i < |names| && names[i] !in flags && !HasPrefix(names[i], K8sInternalsPrefix)
    ensures (names[i], FlagNotFound) in ReadAllSpec(flags, parse, files, dirPath, names, dynamicOnly).errors
    decreases |names|
  {
    var init := names[..|names| - 1];
    if i < |names| - 1 {
      assert (names[i], FlagNotFound) in ReadAllSpec(flags, parse, files, dirPath, init, dynamicOnly).errors by {
        assert forall k :: 0 <= k < |init| ==> init[k] == names[k];
        EveryFileAttempted(flags, parse, files, dirPath, init, dynamicOnly, i);
      }
      ErrorsKept(flags, parse, files, dirPath, names, dynamicOnly, (names[i], FlagNotFound));
    } else {
      LastFileNotFound(flags, parse, files, dirPath, names, dynamicOnly);
    }
  }

  /** The last listed file, when no flag has its name, adds a "not found" error for it. */
  lemma LastFileNotFound(flags: map<string, Flag>, parse: Parser, files: Files, dirPath: string,
                         names: seq<string>, dynamicOnly: bool)
    requires names != [] && EntryName(names[|names| - 1])
    requires names[|names| - 1] !in flags && !HasPrefix(names[|names| - 1], K8sInternalsPrefix)
    ensures (names[|names| - 1], FlagNotFound) in ReadAllSpec(flags, parse, files, dirPath, names, dynamicOnly).errors
  {
    var name := names[|names| - 1];
    var before := ReadAllSpec(flags, parse, files, dirPath, names[..|names| - 1], dynamicOnly);
    var path := JoinPath(dirPath, name);
    assert Base(name) == name by {
      BaseOfJoin("", name);
    }
    assert Base(path) == name by {
      BaseOfJoin(dirPath, name);
    }
    var r := ReadFlagFileSpec(before.flags, parse, files, path, dynamicOnly);
    assert r.0 == Some(FlagNotFound);
    assert ReadAllSpec(flags, parse, files, dirPath, names, dynamicOnly).errors == before.errors + [(name, FlagNotFound)];
  }

  /**
   * Every file is attempted whatever happened before it: a listed, non-internal
   * file whose flag exists, is dynamic when only dynamic flags are wanted, and
   * accepts the file's content leaves that flag set to it. No other entry may
   * carry the same name (a directory listing never repeats one).
   */
  lemma {:induction false} FileApplied(flags: map<string, Flag>, parse: Parser, files: Files, dirPath: string,
                                       names: seq<string>, dynamicOnly: bool, i: nat)
    requires forall k :: 0 <= k < |names| ==> EntryName(names[k])
    requires i < |names| && forall k :: 0 <= k < |names| && k != i ==> names[k] != names[i]
    requires !HasPrefix(names[i], K8sInternalsPrefix) && names[i] in flags
    requires dynamicOnly ==> IsFlagDynamic(flags[names[i]])
    requires JoinPath(dirPath, names[i]) in files.contents
    requires parse(names[i], files.contents[JoinPath(dirPath, names[i])]).Some?
    ensures ReadAllSpec(flags, parse, files, dirPath, names, dynamicOnly).flags[names[i]]
         == flags[names[i]].(value := parse(names[i], files.contents[JoinPath(dirPath, names[i])]).value, changed := true)
    decreases |names|
  {
    var name := names[i];
    var init := names[..|names| - 1];
    var last := names[|names| - 1];
    assert forall k :: 0 <= k < |init| ==> init[k] == names[k];
    var before := ReadAllSpec(flags, parse, files, dirPath, init, dynamicOnly);
    if i == |names| - 1 {
      assert before.flags[name] == flags[name] by {
        Untouched(flags, parse, files, dirPath, init, dynamicOnly, name);
      }
      assert !HasPrefix(Base(name), K8sInternalsPrefix) by {
        BaseOfJoin("", name);
      }
      var path := JoinPath(dirPath, name);
      assert Base(path) == name by {
        BaseOfJoin(dirPath, name);
      }
      ReadFlagFileCases(before.flags, parse, files, path, dynamicOnly);
    } else {
      FileApplied(flags, parse, files, dirPath, init, dynamicOnly, i);
      if !HasPrefix(Base(last), K8sInternalsPrefix) {
        var path := JoinPath(dirPath, last);
        assert Base(path) == last by {
          BaseOfJoin(dirPath, last);
        }
        OtherFlagKept(before.flags, parse, files, path, dynamicOnly, name);
      }
    }
  }

  /**
   * Whether `readAll` reports nothing for the listed entry `name`, for a registry
   * with these flags: an internal entry is skipped; otherwise the flag must exist
   * and either be static during a dynamic-only read or have a readable file whose
   * content it accepts.
   */
  predicate FileClean(flags: map<string, Flag>, parse: Parser, files: Files, dirPath: string,
                      name: string, dynamicOnly: bool) {
    var path := JoinPath(dirPath, name);
    || HasPrefix(Base(name), K8sInternalsPrefix)
    || (&& Base(path) in flags
        && ((dynamicOnly && !IsFlagDynamic(flags[Base(path)]))
            || (path in files.contents && parse(Base(path), files.contents[path]).Some?)))
  }

  /** One file's outcome depends only on the names and dynamic marks of the registry it is read into. */
  lemma FileCleanStep(flags: map<string, Flag>, current: map<string, Flag>, parse: Parser, files: Files,
                      dirPath: string, name: string, dynamicOnly: bool)
    requires current.Keys == flags.Keys
    requires forall n :: n in flags ==> IsFlagDynamic(current[n]) == IsFlagDynamic(flags[n])
    requires !HasPrefix(Base(name), K8sInternalsPrefix)
    ensures Reported(name, ReadFlagFileSpec(current, parse, files, JoinPath(dirPath, name), dynamicOnly).0, dynamicOnly) == []
        <==> FileClean(flags, parse, files, dirPath, name, dynamicOnly)
  {
    ReadFlagFileCases(current, parse, files, JoinPath(dirPath, name), dynamicOnly);
  }

  /** A property holds for every name of a listing iff it holds for all but the last name, and for the last. */
  lemma AllOfSnoc(p: string -> bool, names: seq<string>, init: seq<string>, last: string)
    requires names == init + [last]
    ensures (forall k :: 0 <= k < |names| ==> p(names[k])) <==> (forall k :: 0 <= k < |init| ==> p(init[k])) && p(last)
  {
    assert forall k :: 0 <= k < |init| ==> names[k] == init[k];
    assert names[|init|] == last;
  }

  /** One more listed entry keeps the bulk read free of errors exactly when that entry is clean. */
  lemma NoErrorsStep(flags: map<string, Flag>, parse: Parser, files: Files, dirPath: string,
                     names: seq<string>, dynamicOnly: bool)
    requires names != []
    ensures ReadAllSpec(flags, parse, files, dirPath, names, dynamicOnly).errors == []
        <==> ReadAllSpec(flags, parse, files, dirPath, names[..|names| - 1], dynamicOnly).errors == []
             && FileClean(flags, parse, files, dirPath, names[|names| - 1], dynamicOnly)
  {
    var last := names[|names| - 1];
    var before := ReadAllSpec(flags, parse, files, dirPath, names[..|names| - 1], dynamicOnly);
    var added := if HasPrefix(Base(last), K8sInternalsPrefix) then []
      else Reported(last, ReadFlagFileSpec(before.flags, parse, files, JoinPath(dirPath, last), dynamicOnly).0, dynamicOnly);
    assert ReadAllSpec(flags, parse, files, dirPath, names, dynamicOnly).errors == before.errors + added;
    assert added == [] <==> FileClean(flags, parse, files, dirPath, last, dynamicOnly) by {
      if !HasPrefix(Base(last), K8sInternalsPrefix) {
        FileCleanStep(flags, before.flags, parse, files, dirPath, last, dynamicOnly);
      }
    }
    assert before.errors + added == [] <==> before.errors == [] && added == [];
  }

  /** The bulk read reports no error exactly when every listed entry is clean. */
  lemma {:induction false} NoErrorsIffClean(flags: map<string, Flag>, parse: Parser, files: Files, dirPath: string,
                                            names: seq<string>, dynamicOnly: bool)
    ensures ReadAllSpec(flags, parse, files, dirPath, names, dynamicOnly).errors == [] <==>
      forall k :: 0 <= k < |names| ==> FileClean(flags, parse, files, dirPath, names[k], dynamicOnly)
    decreases |names|
  {
    if names != [] {
      var init := names[..|names| - 1];
      var last := names[|names| - 1];
      assert names == init + [last];
      AllOfSnoc(name => FileClean(flags, parse, files, dirPath, name, dynamicOnly), names, init, last);
      NoErrorsIffClean(flags, parse, files, dirPath, init, dynamicOnly);
      NoErrorsStep(flags, parse, files, dirPath, names, dynamicOnly);
    }
  }

  /** The bulk read over one more listed entry: skipped when internal, otherwise one more file read. */
  lemma ReadAllPrefixStep(flags: map<string, Flag>, parse: Parser, files: Files, dirPath: string,
                          names: seq<string>, dynamicOnly: bool, i: nat)
    requires i < |names|
    ensures var before := ReadAllSpec(flags, parse, files, dirPath, names[..i], dynamicOnly);
      ReadAllSpec(flags, parse, files, dirPath, names[..i + 1], dynamicOnly)
      == if HasPrefix(Base(names[i]), K8sInternalsPrefix) then before
         else
           var r := ReadFlagFileSpec(before.flags, parse, files, JoinPath(dirPath, names[i]), dynamicOnly);
           Outcome(before.errors + Reported(names[i], r.0, dynamicOnly), r.1)
  {
    assert names[..i + 1][..i] == names[..i] && names[..i + 1][i] == names[i];
  }

  /** A loop pass that does what `ReadAllPrefixStep` says extends the bulk read by one entry. */
  lemma ReadAllExtend(flags: map<string, Flag>, parse: Parser, files: Files, dirPath: string,
                      names: seq<string>, dynamicOnly: bool, i: nat,
                      errors: seq<(string, FileError)>, current: map<string, Flag>,
                      added: seq<(string, FileError)>, next: map<string, Flag>)
    requires i < |names|
    requires Outcome(errors, current) == ReadAllSpec(flags, parse, files, dirPath, names[..i], dynamicOnly)
    requires HasPrefix(Base(names[i]), K8sInternalsPrefix) ==> added == [] && next == current
    requires !HasPrefix(Base(names[i]), K8sInternalsPrefix) ==>
      var r := ReadFlagFileSpec(current, parse, files, JoinPath(dirPath, names[i]), dynamicOnly);
      added == Reported(names[i], r.0, dynamicOnly) && next == r.1
    ensures Outcome(errors + added, next) == ReadAllSpec(flags, parse, files, dirPath, names[..i + 1], dynamicOnly)
  {
    ReadAllPrefixStep(flags, parse, files, dirPath, names, dynamicOnly, i);
    if HasPrefix(Base(names[i]), K8sInternalsPrefix) {
      assert errors + added == errors;
    }
  }

  /** Reading one more file only appends to the errors reported so far. */
  lemma ErrorsKept(flags: map<string, Flag>, parse: Parser, files: Files, dirPath: string,
                   names: seq<string>, dynamicOnly: bool, e: (string, FileError))
    requires names != []
    requires e in ReadAllSpec(flags, parse, files, dirPath, names[..|names| - 1], dynamicOnly).errors
    ensures e in ReadAllSpec(flags, parse, files, dirPath, names, dynamicOnly).errors
  {
  }

  /** The fsnotify operations; an event carries the set of bits it was raised with. */
  datatype Op = Create | Write | Remove | Rename | Chmod

  datatype Event = Event(name: string, ops: set<Op>)

  /** What the watch loop does with one event. */
  datatype Action = ReadAllDynamic | ReadFile(path: string) | Ignore

  /**
   * The dispatch of `watchForUpdates`: the directory itself or its "..data" link
   * being created means the whole ConfigMap was swapped; any other non-internal
   * path under the directory that is created, written or renamed is one flag file.
   * `switch event.Op` compares the whole bit set, so combined bits match no case.
   */
  function Classify(dirPath: string, e: Event): (a: Action)
    ensures a == ReadAllDynamic <==>
      (e.name == dirPath || e.name == JoinPath(dirPath, K8sDataSymlink)) && e.ops == {Create}
    ensures a.ReadFile? <==>
      && e.name != dirPath && e.name != JoinPath(dirPath, K8sDataSymlink)
      && HasPrefix(e.name, dirPath) && !IsK8sInternalDirectory(e.name)
      && e.ops in {{Create}, {Write}, {Rename}}
    ensures a.ReadFile? ==> a.path == e.name
  {
    if e.name == dirPath || e.name == JoinPath(dirPath, K8sDataSymlink) then
      if e.ops == {Create} then ReadAllDynamic else Ignore
    else if HasPrefix(e.name, dirPath) && !IsK8sInternalDirectory(e.name) then
      if e.ops in {{Create}, {Write}, {Rename}} then ReadFile(e.name) else Ignore
    else Ignore
  }

  /** Removing the watched directory or any flag file never touches the flags. */
  lemma RemoveIgnored(dirPath: string, name: string)
    ensures Classify(dirPath, Event(name, {Remove})) == Ignore
  {
    assert {Remove} != {Create} by { assert Remove in {Remove}; }
    assert {Remove} !in {{Create}, {Write}, {Rename}} by {
      assert Remove !in {Create} && Remove !in {Write} && Remove !in {Rename};
    }
  }

  class Updater {
    var started: bool
    const dirPath: string
    const flagSet: FlagSet

    ghost predicate Valid()
      reads this, flagSet
    {
      flagSet.Valid()
    }

    /** `New`; the fsnotify watcher it creates is not modelled. */
    constructor (flagSet: FlagSet, dirPath: string)
      requires flagSet.Valid()
      ensures Valid() && !started && this.flagSet == flagSet && this.dirPath == dirPath
    {
      started := false;
      this.dirPath := dirPath;
      this.flagSet := flagSet;
    }

    /** `readFlagFile`. */
    method ReadFlagFile(files: Files, fullPath: string, dynamicOnly: bool) returns (err: Option<FileError>)
      requires Valid()
      modifies flagSet
      ensures Valid() && flagSet.order == old(flagSet.order)
      ensures (err, flagSet.flags) == ReadFlagFileSpec(old(flagSet.flags), flagSet.parse, files, fullPath, dynamicOnly)
    {
      var name := Base(fullPath);
      var flag := flagSet.Lookup(name);
      if flag.None? {
        return Some(FlagNotFound);
      }
      if dynamicOnly && !IsFlagDynamic(flag.value) {
        return Some(FlagNotDynamic);
      }
      if fullPath !in files.contents {
        return Some(ReadFailed(fullPath));
      }
      var setErr := flagSet.Set(name, files.contents[fullPath]);
      err := if setErr.None? then None else Some(SetFailed(setErr.value));
    }

    /** One entry of `readAll`'s loop: an internal entry is skipped, any other file is read. */
    method ReadEntry(files: Files, name: string, dynamicOnly: bool) returns (added: seq<(string, FileError)>)
      requires Valid()
      modifies flagSet
      ensures Valid() && flagSet.order == old(flagSet.order)
      ensures HasPrefix(Base(name), K8sInternalsPrefix) ==> added == [] && flagSet.flags == old(flagSet.flags)
      ensures !HasPrefix(Base(name), K8sInternalsPrefix) ==>
        var r := ReadFlagFileSpec(old(flagSet.flags), flagSet.parse, files, JoinPath(dirPath, name), dynamicOnly);
        added == Reported(name, r.0, dynamicOnly) && flagSet.flags == r.1
    {
      added := [];
      if !HasPrefix(Base(name), K8sInternalsPrefix) {
        var fileErr := ReadFlagFile(files, JoinPath(dirPath, name), dynamicOnly);
        added := Reported(name, fileErr, dynamicOnly);
      }
    }

    /** `readAll`: every listed file is attempted, and all reported errors are returned together. */
    method ReadAll(files: Files, dynamicOnly: bool) returns (err: Option<UpdaterError>)
      requires Valid()
      modifies flagSet
      ensures Valid() && flagSet.order == old(flagSet.order)
      ensures files.listing.None? ==> err == Some(DirUnreadable) && flagSet.flags == old(flagSet.flags)
      ensures files.listing.Some? ==>
        var r := ReadAllSpec(old(flagSet.flags), flagSet.parse, files, dirPath, files.listing.value, dynamicOnly);
        flagSet.flags == r.flags && err == (if r.errors == [] then None else Some(FileErrors(r.errors)))
    {
      if files.listing.None? {
        return Some(DirUnreadable);
      }
      var names := files.listing.value;
      ghost var start := flagSet.flags;
      var errors: seq<(string, FileError)> := [];
      var i := 0;
      while i < |names|
        invariant 0 <= i <= |names|
        invariant Valid() && flagSet.order == old(flagSet.order)
        invariant Outcome(errors, flagSet.flags) == ReadAllSpec(start, flagSet.parse, files, dirPath, names[..i], dynamicOnly)
      {
        ghost var current := flagSet.flags;
        var added := ReadEntry(files, names[i], dynamicOnly);
        ReadAllExtend(start, flagSet.parse, files, dirPath, names, dynamicOnly, i, errors, current, added, flagSet.flags);
        errors := errors + added;
        i := i + 1;
      }
      assert names[..i] == names;
      err := if errors == [] then None else Some(FileErrors(errors));
    }

    /** `Initialize`: refused once started; otherwise reads every file, static flags included. */
    method Initialize(files: Files) returns (err: Option<UpdaterError>)
      requires Valid()
      modifies flagSet
      ensures Valid() && flagSet.order == old(flagSet.order) && started == old(started)
      ensures started ==> err == Some(AlreadyInitialized) && flagSet.flags == old(flagSet.flags)
      ensures !started && files.listing.None? ==> err == Some(DirUnreadable) && flagSet.flags == old(flagSet.flags)
      ensures !started && files.listing.Some? ==>
        var r := ReadAllSpec(old(flagSet.flags), flagSet.parse, files, dirPath, files.listing.value, false);
        flagSet.flags == r.flags && err == (if r.errors == [] then None else Some(FileErrors(r.errors)))
    {
      if started {
        return Some(AlreadyInitialized);
      }
      err := ReadAll(files, false);
    }

    /**
     * `Start`: refused once started. Otherwise it would register the watches and
     * launch the watch loop; `started` itself is left as it was.
     */
    method Start() returns (err: Option<UpdaterError>)
      ensures started ==> err == Some(AlreadyStarted)
      ensures !started ==> err == None
    {
      err := if started then Some(AlreadyStarted) else None;
    }

    /** `Stop`: refused unless started; otherwise it would signal the watch loop to end. */
    method Stop() returns (err: Option<UpdaterError>)
      ensures !started ==> err == Some(NotUpdating)
      ensures started ==> err == None
    {
      err := if started then None else Some(NotUpdating);
    }

    /** One iteration of `watchForUpdates`: dispatch the event; errors are only logged. */
    method HandleEvent(files: Files, e: Event) returns (action: Action)
      requires Valid()
      modifies flagSet
      ensures Valid() && flagSet.order == old(flagSet.order)
      ensures action == Classify(dirPath, e)
      ensures action == Ignore ==> flagSet.flags == old(flagSet.flags)
      ensures action == ReadAllDynamic && files.listing.Some? ==>
        flagSet.flags == ReadAllSpec(old(flagSet.flags), flagSet.parse, files, dirPath, files.listing.value, true).flags
      ensures action == ReadAllDynamic && files.listing.None? ==> flagSet.flags == old(flagSet.flags)
      ensures action.ReadFile? ==>
        flagSet.flags == ReadFlagFileSpec(old(flagSet.flags), flagSet.parse, files, e.name, true).1
    {
      action := Classify(dirPath, e);
      match action
      case ReadAllDynamic =>
        var _ := ReadAll(files, true);
      case ReadFile(path) =>
        var _ := ReadFlagFile(files, path, true);
      case Ignore =>
    }
  }
}
