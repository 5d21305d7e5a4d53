/**
 * The etcd updater (etcd/updater.go): a bulk read of every key under a path,
 * then a watch loop that applies each change, re-reads everything when etcd has
 * dropped the history it was watching from, backs off on other errors, and rolls
 * a rejected value back in etcd itself.
 *
 * The etcd client is replaced by the replies it would give: each method takes
 * the reply to the request it issues.
 */
module Etcd {
  import opened Wrappers
  import opened Text
  import opened Numbers
  import opened Registry
  import opened Common

  /** The etcd error codes the updater names. */
  const PreconditionFailed: int := 101
  const ErrorWatcherCleared: int := 400
  const ErrorEventIndexCleared: int := 401

  /** An etcd node; `nodes` holds the children of a directory. */
  datatype Node = Node(key: string, value: string, dir: bool, modifiedIndex: Uint64, nodes: seq<Node>)

  datatype Response = Response(etcdIndex: Uint64, node: Node, prevNode: Option<Node>)

  /** A failed client call: an error etcd answered with a code, or any other failure. */
  datatype ClientError = EtcdError(code: int) | OtherError

  /** One problem found while applying the bulk read. */
  datatype ApplyError = BadKey(key: string) | SetFailed(cause: SetError)

  datatype UpdaterError =
    | AlreadyInitialized
    | NotInitialized
    | AlreadyWatching
    | NotWatching
    | FetchFailed(cause: ClientError)
    | ApplyErrors(errors: seq<ApplyError>)

  /**
   * `keyToFlag`: the last piece of the key split at "/"; a key without any "/"
   * has only one piece and is an error. The name is "" in that case, as Go
   * returns it alongside the error.
   */
  function KeyToFlag(key: string): (r: (string, bool))
    ensures r.1 <==> '/' !in key
    ensures r.1 ==> r.0 == ""
    ensures !r.1 ==> HasSuffix(key, "/" + r.0) && '/' !in r.0
  {
    var parts := Split(key, '/');
    SplitSingle(key, '/');
    SplitLast(key, '/');
    if |parts| <= 1 then ("", true) else (parts[|parts| - 1], false)
  }

  /** A key ending in "/" names the empty flag. */
  lemma TrailingSlash(prefix: string)
    ensures KeyToFlag(prefix + "/") == ("", false)
  {
    var key := prefix + "/";
    assert key[|key| - 1] == '/';
    var r := KeyToFlag(key);
    assert HasSuffix(key, "/" + r.0) && '/' !in r.0;
  }

  /**
   * The body of `readAllFlags`' loop over the nodes: directories are skipped; a
   * bad key is recorded and `Set` is still called (with the empty name) when the
   * value is not empty; a rejected `Set` is recorded; every node is attempted.
   */
  function ApplyNodes(flags: map<string, Flag>, parse: Parser, nodes: seq<Node>): (r: (seq<ApplyError>, map<string, Flag>))
    ensures r.1.Keys == flags.Keys
    decreases |nodes|
  {
    if nodes == [] then ([], flags)
    else
      var (errors, before) := ApplyNodes(flags, parse, nodes[..|nodes| - 1]);
      ApplyOne(errors, before, parse, nodes[|nodes| - 1])
  }

  /** One node of the bulk read, applied after the errors and registry state so far. */
  function ApplyOne(errors: seq<ApplyError>, flags: map<string, Flag>, parse: Parser, node: Node)
    : (r: (seq<ApplyError>, map<string, Flag>))
    ensures r.1.Keys == flags.Keys && errors <= r.0
    ensures node.dir || node.value == "" ==> r.1 == flags
  {
    if node.dir then (errors, flags)
    else
      var (name, bad) := KeyToFlag(node.key);
      var errors := if bad then errors + [BadKey(node.key)] else errors;
      if node.value == "" then (errors, flags)
      else match TrySet(flags, parse, name, node.value)
        case Success(after) => (errors, after)
        case Failure(e) => (errors + [SetFailed(e)], flags)
  }

  /** Whether applying `node` to a registry with these names reports nothing. */
  predicate Clean(names: set<string>, parse: Parser, node: Node) {
    node.dir || ('/' in node.key && (node.value == "" || (KeyToFlag(node.key).0 in names
                                                          && parse(KeyToFlag(node.key).0, node.value).Some?)))
  }

  /** The bulk read reports no error exactly when every node applies cleanly. */
  lemma {:induction false} NoErrorsIffClean(flags: map<string, Flag>, parse: Parser, nodes: seq<Node>)
    ensures ApplyNodes(flags, parse, nodes).0 == [] <==>
      forall i :: 0 <= i < |nodes| ==> Clean(flags.Keys, parse, nodes[i])
    decreases |nodes|
  {
    if nodes != [] {
      var init := nodes[..|nodes| - 1];
      NoErrorsIffClean(flags, parse, init);
      assert forall i :: 0 <= i < |init| ==> init[i] == nodes[i];
      assert nodes == init + [nodes[|nodes| - 1]];
    }
  }

  /** A flag no leaf node with a value names keeps its value. */
  lemma {:induction false} UntouchedKeepDefaults(flags: map<string, Flag>, parse: Parser, nodes: seq<Node>, n: string)
    requires n in flags
    requires forall i :: 0 <= i < |nodes| ==> nodes[i].dir || nodes[i].value == "" || KeyToFlag(nodes[i].key).0 != n
    ensures ApplyNodes(flags, parse, nodes).1[n] == flags[n]
    decreases |nodes|
  {
    if nodes != [] {
      var init := nodes[..|nodes| - 1];
      assert forall i :: 0 <= i < |init| ==> init[i] == nodes[i];
      UntouchedKeepDefaults(flags, parse, init, n);
    }
  }

  /**
   * Earlier failures do not stop later nodes: an accepted leaf applied last
   * leaves its flag with the parsed value and marked changed.
   */
  lemma LastNodeApplied(flags: map<string, Flag>, parse: Parser, nodes: seq<Node>, node: Node)
    requires !node.dir && '/' in node.key && node.value != ""
    requires KeyToFlag(node.key).0 in flags && parse(KeyToFlag(node.key).0, node.value).Some?
    ensures var name := KeyToFlag(node.key).0;
      ApplyNodes(flags, parse, nodes + [node]).1[name]
      == ApplyNodes(flags, parse, nodes).1[name].(value := parse(name, node.value).value, changed := true)
  {
    assert (nodes + [node])[..|nodes|] == nodes;
  }

  /**
   * Every node is attempted whatever failed before it: an accepted leaf that no
   * later leaf with a value overrides leaves its flag with the parsed value and
   * marked changed.
   */
  lemma {:induction false} NodeApplied(flags: map<string, Flag>, parse: Parser, nodes: seq<Node>, i: nat)
    requires i < |nodes| && !nodes[i].dir && '/' in nodes[i].key && nodes[i].value != ""
    requires KeyToFlag(nodes[i].key).0 in flags && parse(KeyToFlag(nodes[i].key).0, nodes[i].value).Some?
    requires forall j :: i < j < |nodes| ==>
      nodes[j].dir || nodes[j].value == "" || KeyToFlag(nodes[j].key).0 != KeyToFlag(nodes[i].key).0
    ensures var name := KeyToFlag(nodes[i].key).0;
      ApplyNodes(flags, parse, nodes).1[name]
      == ApplyNodes(flags, parse, nodes[..i]).1[name].(value := parse(name, nodes[i].value).value, changed := true)
    decreases |nodes|
  {
    var init := nodes[..|nodes| - 1];
    if i == |nodes| - 1 {
      assert init + [nodes[i]] == nodes;
      LastNodeApplied(flags, parse, init, nodes[i]);
    } else {
      assert forall j :: 0 <= j < |init| ==> init[j] == nodes[j];
      assert init[..i] == nodes[..i];
      NodeApplied(flags, parse, init, i);
    }
  }

  /**
   * The watch does not look at the dynamic marker: a leaf naming a static flag is
   * applied like any other, and the flag stays static.
   */
  lemma StaticFlagApplied(flags: map<string, Flag>, parse: Parser, name: string, input: string)
    requires name in flags && !IsFlagDynamic(flags[name]) && parse(name, input).Some?
    ensures TrySet(flags, parse, name, input).Success?
    ensures TrySet(flags, parse, name, input).value[name].value == parse(name, input).value
    ensures !IsFlagDynamic(TrySet(flags, parse, name, input).value[name])
  {
  }

  /** What one iteration of the watch loop did. */
  datatype StepAction =
    | Reread(result: Option<UpdaterError>)
    | Backoff(sleepMs: int)
    | IgnoredDirectory
    | IgnoredBadKey
    | IgnoredEmpty
    | Applied(name: string)
    | RolledBack(name: string, request: RollbackRequest, outcome: RollbackOutcome)

  /** The conditional write that undoes a rejected value, guarded by the index it was written at. */
  datatype RollbackRequest =
    | CompareAndSwap(key: string, value: string, prevIndex: Uint64)
    | CompareAndDelete(key: string, prevIndex: Uint64)

  datatype RollbackOutcome = RolledBackOk | ChangedBySomeoneElse | RollbackFailed

  /**
   * `rollbackEtcdValue`'s request: a value that replaced an earlier one is swapped
   * back to it, a newly created key is deleted.
   */
  function RollbackRequestFor(resp: Response, lastEtcdIndex: Uint64): (req: RollbackRequest)
    ensures req.key == resp.node.key && req.prevIndex == lastEtcdIndex
    ensures req.CompareAndSwap? <==> resp.prevNode.Some?
    ensures req.CompareAndSwap? ==> req.value == resp.prevNode.value.value
  {
    match resp.prevNode
    case Some(prev) => CompareAndSwap(resp.node.key, prev.value, lastEtcdIndex)
    case None => CompareAndDelete(resp.node.key, lastEtcdIndex)
  }

  /** How the reply to the rollback is read: a failed precondition means someone else already changed the key. */
  function RollbackOutcomeOf(reply: Option<ClientError>): (o: RollbackOutcome)
    ensures o == RolledBackOk <==> reply.None?
    ensures o == ChangedBySomeoneElse <==> reply == Some(EtcdError(PreconditionFailed))
  {
    match reply
    case None => RolledBackOk
    case Some(EtcdError(code)) => if code == PreconditionFailed then ChangedBySomeoneElse else RollbackFailed
    case Some(OtherError) => RollbackFailed
  }

  class Updater {
    var lastEtcdIndex: Uint64
    var watching: bool
    const etcdPath: string
    const flagSet: FlagSet

    ghost predicate Valid()
      reads this, flagSet
    {
      flagSet.Valid()
    }

    /** `New`: not yet initialized, not watching. */
    constructor (flagSet: FlagSet, etcdPath: string)
      requires flagSet.Valid()
      ensures Valid() && lastEtcdIndex == 0 && !watching
      ensures this.flagSet == flagSet && this.etcdPath == etcdPath
    {
      lastEtcdIndex := 0;
      watching := false;
      this.etcdPath := etcdPath;
      this.flagSet := flagSet;
    }

    /**
     * `readAllFlags`, given the reply to the recursive `Get` of the path. A failed
     * fetch changes nothing; otherwise the index is adopted first, then every node
     * applied, and all errors reported together.
     */
    method ReadAllFlags(fetched: Result<Response, ClientError>) returns (err: Option<UpdaterError>)
      requires Valid()
      modifies this, flagSet
      ensures Valid() && flagSet.order == old(flagSet.order) && watching == old(watching)
      ensures fetched.Failure? ==>
        err == Some(FetchFailed(fetched.error)) && lastEtcdIndex == old(lastEtcdIndex) && flagSet.flags == old(flagSet.flags)
      ensures fetched.Success? ==>
        var (errors, flags) := ApplyNodes(old(flagSet.flags), flagSet.parse, fetched.value.node.nodes);
        && lastEtcdIndex == fetched.value.etcdIndex
        && flagSet.flags == flags
        && err == (if errors == [] then None else Some(ApplyErrors(errors)))
    {
      if fetched.Failure? {
        return Some(FetchFailed(fetched.error));
      }
      var resp := fetched.value;
      lastEtcdIndex := resp.etcdIndex;
      var nodes := resp.node.nodes;
      var errors: seq<ApplyError> := [];
      var i := 0;
      while i < |nodes|
        invariant 0 <= i <= |nodes|
        invariant Valid() && flagSet.order == old(flagSet.order)
        invariant lastEtcdIndex == resp.etcdIndex && watching == old(watching)
        invariant (errors, flagSet.flags) == ApplyNodes(old(flagSet.flags), flagSet.parse, nodes[..i])
      {
        var node := nodes[i];
        assert nodes[..i + 1][..i] == nodes[..i] && nodes[..i + 1][i] == node;
        ghost var before := flagSet.flags;
        ghost var expected := ApplyNodes(old(flagSet.flags), flagSet.parse, nodes[..i + 1]);
        ghost var step := ApplyOne(errors, before, flagSet.parse, node);
        assert expected == step;
        if !node.dir {
          var (name, bad) := KeyToFlag(node.key);
          if bad {
            errors := errors + [BadKey(node.key)];
          }
          if node.value != "" {
            var setErr := flagSet.Set(name, node.value);
            if setErr.Some? {
              errors := errors + [SetFailed(setErr.value)];
            }
          }
        }
        assert (errors, flagSet.flags) == step;
        i := i + 1;
      }
      assert nodes[..i] == nodes;
      err := if errors == [] then None else Some(ApplyErrors(errors));
    }

    /** `Initialize`: refused once an index was recorded; otherwise the bulk read. */
    method Initialize(fetched: Result<Response, ClientError>) returns (err: Option<UpdaterError>)
      requires Valid()
      modifies this, flagSet
      ensures Valid() && flagSet.order == old(flagSet.order) && watching == old(watching)
      ensures old(lastEtcdIndex) != 0 ==>
        err == Some(AlreadyInitialized) && lastEtcdIndex == old(lastEtcdIndex) && flagSet.flags == old(flagSet.flags)
      ensures old(lastEtcdIndex) == 0 && fetched.Failure? ==>
        err == Some(FetchFailed(fetched.error)) && lastEtcdIndex == 0 && flagSet.flags == old(flagSet.flags)
      ensures old(lastEtcdIndex) == 0 && fetched.Success? ==>
        var (errors, flags) := ApplyNodes(old(flagSet.flags), flagSet.parse, fetched.value.node.nodes);
        && lastEtcdIndex == fetched.value.etcdIndex
        && flagSet.flags == flags
        && err == (if errors == [] then None else Some(ApplyErrors(errors)))
    {
      if lastEtcdIndex != 0 {
        return Some(AlreadyInitialized);
      }
      err := ReadAllFlags(fetched);
    }

    /**
     * `Start`: refused before initialization and while watching. Otherwise it
     * launches the watch loop; `watching` itself is left as it was.
     */
    method Start() returns (err: Option<UpdaterError>)
      ensures lastEtcdIndex == 0 ==> err == Some(NotInitialized)
      ensures lastEtcdIndex != 0 && watching ==> err == Some(AlreadyWatching)
      ensures lastEtcdIndex != 0 && !watching ==> err == None
    {
      if lastEtcdIndex == 0 {
        return Some(NotInitialized);
      }
      if watching {
        return Some(AlreadyWatching);
      }
      return None;
    }

    /** `Stop`: refused unless watching; otherwise it signals the watch loop. */
    method Stop() returns (err: Option<UpdaterError>)
      ensures !watching ==> err == Some(NotWatching)
      ensures watching ==> err == None
    {
      err := if watching then None else Some(NotWatching);
    }

    /**
     * One iteration of `watchForUpdates`. `waitIndex` is the index the watch is
     * issued from; `watched` is its reply. `reread` is the reply to the bulk read
     * done after a 401, `jitterMs` the random part of the back-off, and
     * `rollbackReply` the reply to the rollback request, if one is sent.
     */
    method Step(watched: Result<Response, ClientError>, reread: Result<Response, ClientError>,
                jitterMs: int, rollbackReply: Option<ClientError>)
      returns (waitIndex: Uint64, action: StepAction)
      requires Valid() && 0 <= jitterMs < 500
      modifies this, flagSet
      ensures Valid() && flagSet.order == old(flagSet.order) && watching == old(watching)
      ensures waitIndex == Uint64Succ(old(lastEtcdIndex))
      ensures watched == Failure(EtcdError(ErrorEventIndexCleared)) ==> action.Reread?
      ensures action.Reread? ==> watched == Failure(EtcdError(ErrorEventIndexCleared))
      ensures action.Reread? && reread.Failure? ==>
        lastEtcdIndex == old(lastEtcdIndex) && flagSet.flags == old(flagSet.flags)
      ensures action.Reread? && reread.Success? ==>
        && lastEtcdIndex == reread.value.etcdIndex
        && flagSet.flags == ApplyNodes(old(flagSet.flags), flagSet.parse, reread.value.node.nodes).1
      ensures watched.Failure? && watched != Failure(EtcdError(ErrorEventIndexCleared)) ==>
        action == Backoff(1000 + jitterMs) && lastEtcdIndex == old(lastEtcdIndex) && flagSet.flags == old(flagSet.flags)
      ensures watched.Success? ==> lastEtcdIndex == watched.value.node.modifiedIndex
      ensures watched.Success? && !action.Applied? ==> flagSet.flags == old(flagSet.flags)
      ensures watched.Success? ==>
        var node := watched.value.node;
        var (name, bad) := KeyToFlag(node.key);
        && (node.dir <==> action == IgnoredDirectory)
        && (!node.dir && bad <==> action == IgnoredBadKey)
        && (!node.dir && !bad && node.value == "" <==> action == IgnoredEmpty)
        && (!node.dir && !bad && node.value != "" ==>
             var attempt := TrySet(old(flagSet.flags), flagSet.parse, name, node.value);
             && (attempt.Success? ==> action == Applied(name) && flagSet.flags == attempt.value)
             && (attempt.Failure? ==> action == RolledBack(name, RollbackRequestFor(watched.value, node.modifiedIndex),
                                                          RollbackOutcomeOf(rollbackReply))))
    {
      waitIndex := Uint64Succ(lastEtcdIndex);
      if watched.Failure? {
        if watched.error == EtcdError(ErrorEventIndexCleared) {
          var result := ReadAllFlags(reread);
          return waitIndex, Reread(result);
        }
        return waitIndex, Backoff(1000 + jitterMs);
      }
      var resp := watched.value;
      lastEtcdIndex := resp.node.modifiedIndex;
      if resp.node.dir {
        return waitIndex, IgnoredDirectory;
      }
      var (name, bad) := KeyToFlag(resp.node.key);
      if bad {
        return waitIndex, IgnoredBadKey;
      }
      var value := resp.node.value;
      if value == "" {
        return waitIndex, IgnoredEmpty;
      }
      var setErr := flagSet.Set(name, value);
      if setErr.Some? {
        var request := RollbackEtcdValue(resp);
        action := RolledBack(name, request, RollbackOutcomeOf(rollbackReply));
      } else {
        action := Applied(name);
      }
    }

    /** `rollbackEtcdValue`'s request, guarded by the index of the rejected write. */
    method RollbackEtcdValue(resp: Response) returns (request: RollbackRequest)
      ensures request == RollbackRequestFor(resp, lastEtcdIndex)
    {
      request := RollbackRequestFor(resp, lastEtcdIndex);
    }
  }

}
