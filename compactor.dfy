/** The action compactor of `src/action/mod.rs`: one left-to-right pass that
    batches adjacent package actions into a single invocation when their
    package manager accepts several names at once.

    A run is keyed by source, operation AND origin. The source's comparison
    looks at source and operation only, but its own test expects runs from
    different origins to stay apart and a batched action to keep its origin;
    the key follows the test. */
module Compactor {
  import opened Wrappers
  import opened Strings
  import opened Action
  import opened HostConfig

  /** What the compactor demands of its input: every package source is
      configured on the host (the lookup is unwrapped) and non-empty (the
      empty source stands for "no pending run"). */
  predicate SourcesConfigured(actions: seq<SystemAction>, config: HostConfiguration)
  {
    forall k :: 0 <= k < |actions| && actions[k].Package? ==>
      actions[k].source != "" && actions[k].source in config.packageManagers
  }

  /** A package action whose manager takes several names per call. */
  predicate Mergeable(a: SystemAction, config: HostConfiguration)
  {
    a.Package? && a.source in config.packageManagers && config.packageManagers[a.source].multiple
  }

  /** The key under which adjacent package actions are batched. */
  datatype RunKey = RunKey(operation: PackageOperation, source: string, origin: string)

  function KeyOf(a: SystemAction): RunKey
    requires a.Package?
  {
    RunKey(a.packageOp, a.source, a.origin)
  }

  /** The run being collected: its key and the names gathered so far. */
  datatype Batch = Batch(key: RunKey, names: seq<string>)

  /** A pending run holds at least one name and belongs to a batching manager. */
  predicate RunValid(pending: Option<Batch>, config: HostConfiguration)
  {
    pending.Some? ==>
      && |pending.value.names| > 0
      && pending.value.key.source in config.packageManagers
      && config.packageManagers[pending.value.key.source].multiple
  }

  /** The one action a pending run turns into, if there is one. */
  function Flush(pending: Option<Batch>): seq<SystemAction>
  {
    match pending
    case None => []
    case Some(batch) => [Package(batch.key.operation, batch.key.source, Join(batch.names, " "), batch.key.origin)]
  }

  /** What one action adds to the output, given the pending run: a batchable
      action that continues the run adds nothing yet; one that starts a new run
      flushes the old one; any other action flushes the run and is kept. */
  function Emitted(pending: Option<Batch>, a: SystemAction, config: HostConfiguration): seq<SystemAction>
  {
    if Mergeable(a, config) then
      if pending.Some? && pending.value.key == KeyOf(a) then [] else Flush(pending)
    else Flush(pending) + [a]
  }

  /** The pending run after one action. */
  function NextPending(pending: Option<Batch>, a: SystemAction, config: HostConfiguration): Option<Batch>
  {
    if Mergeable(a, config) then
      if pending.Some? && pending.value.key == KeyOf(a) then Some(Batch(KeyOf(a), pending.value.names + [a.name]))
      else Some(Batch(KeyOf(a), [a.name]))
    else None
  }

  /** Compaction of `rest` when `pending` is the run collected so far. */
  function CompactFrom(pending: Option<Batch>, rest: seq<SystemAction>, config: HostConfiguration): seq<SystemAction>
    decreases |rest|
  {
    if rest == [] then Flush(pending)
    else Emitted(pending, rest[0], config) + CompactFrom(NextPending(pending, rest[0], config), rest[1..], config)
  }

  /** The compacted form of a whole action list. */
  function Compact(actions: seq<SystemAction>, config: HostConfiguration): seq<SystemAction>
  {
    CompactFrom(None, actions, config)
  }

  /** One step of compaction, read at position `i` of a list: output `out`
      followed by the compaction of `s[i..]` from `pending` is the same as the
      output after one more action followed by the compaction of the rest. */
  lemma CompactStep(out: seq<SystemAction>, pending: Option<Batch>, s: seq<SystemAction>, i: nat,
                    config: HostConfiguration)
    requires i < |s|
    ensures out + CompactFrom(pending, s[i..], config)
         == (out + Emitted(pending, s[i], config)) + CompactFrom(NextPending(pending, s[i], config), s[i + 1..], config)
  {
    assert s[i..][1..] == s[i + 1..];
  }

  /** The loop's pending state, read as a run: the empty source means none. */
  function PendingBatch(lastSource: string, lastOperation: PackageOperation, lastOrigin: string,
                      pendingPackages: seq<string>): Option<Batch>
  {
    if lastSource == "" then None else Some(Batch(RunKey(lastOperation, lastSource, lastOrigin), pendingPackages))
  }

  /** `flush_pending_actions`: append the pending run as one package action
      whose name is the space-joined pending names, and empty the run. */
  method FlushPendingActions(merged: seq<SystemAction>, lastSource: string, pendingPackages: seq<string>,
                             lastOperation: PackageOperation, lastOrigin: string)
    returns (merged': seq<SystemAction>, pendingPackages': seq<string>)
    ensures merged' == merged + [Package(lastOperation, lastSource, Join(pendingPackages, " "), lastOrigin)]
    ensures pendingPackages' == []
  {
    merged' := merged + [Package(lastOperation, lastSource, Join(pendingPackages, " "), lastOrigin)];
    pendingPackages' := [];
  }

  /** The body of the loop of `compact_mergeable_actions` for one action:
      the pending state `(lastSource, lastOperation, lastOrigin, pendingPackages)`
      moves on as `NextPending` says and `merged` grows by `Emitted`. */
  method CompactOne(merged: seq<SystemAction>, lastSource: string, lastOperation: PackageOperation,
                    lastOrigin: string, pendingPackages: seq<string>,
                    action: SystemAction, config: HostConfiguration)
    returns (merged': seq<SystemAction>, lastSource': string, lastOperation': PackageOperation,
             lastOrigin': string, pendingPackages': seq<string>)
    requires (lastSource == "") == (pendingPackages == [])
    requires lastSource != "" ==> lastSource in config.packageManagers && config.packageManagers[lastSource].multiple
    requires action.Package? ==> action.source != "" && action.source in config.packageManagers
    ensures (lastSource' == "") == (pendingPackages' == [])
    ensures lastSource' != "" ==> lastSource' in config.packageManagers && config.packageManagers[lastSource'].multiple
    ensures merged' == merged + Emitted(PendingBatch(lastSource, lastOperation, lastOrigin, pendingPackages), action, config)
    ensures PendingBatch(lastSource', lastOperation', lastOrigin', pendingPackages')
         == NextPending(PendingBatch(lastSource, lastOperation, lastOrigin, pendingPackages), action, config)
  {
    ghost var pending := PendingBatch(lastSource, lastOperation, lastOrigin, pendingPackages);
    merged', lastSource', lastOperation', lastOrigin', pendingPackages' := merged, lastSource, lastOperation, lastOrigin, pendingPackages;
    if action.Package? {
      var pmSupportsMultiple := config.packageManagers[action.source].multiple;
      if |lastSource'| > 0 && (lastSource' != action.source || lastOperation' != action.packageOp || lastOrigin' != action.origin) {
        merged', pendingPackages' := FlushPendingActions(merged', lastSource', pendingPackages', lastOperation', lastOrigin');
        lastSource' := "";
      }
      if pmSupportsMultiple {
        if |lastSource'| == 0 {
          lastSource', lastOperation', lastOrigin' := action.source, action.packageOp, action.origin;
        }
        pendingPackages' := pendingPackages' + [action.name];
        assert Mergeable(action, config);
        if pending.Some? && pending.value.key == KeyOf(action) {
          assert PendingBatch(lastSource', lastOperation', lastOrigin', pendingPackages') == NextPending(pending, action, config);
        } else {
          assert pendingPackages' == [action.name];
          assert PendingBatch(lastSource', lastOperation', lastOrigin', pendingPackages') == NextPending(pending, action, config);
        }
        assert merged' == merged + Emitted(pending, action, config);
      } else {
        merged' := merged' + [action];
        assert merged' == merged + Emitted(pending, action, config);
        assert PendingBatch(lastSource', lastOperation', lastOrigin', pendingPackages') == NextPending(pending, action, config);
      }
    } else {
      if |pendingPackages'| > 0 {
        merged', pendingPackages' := FlushPendingActions(merged', lastSource', pendingPackages', lastOperation', lastOrigin');
        lastSource' := "";
      }
      merged' := merged' + [action];
      assert merged' == merged + Emitted(pending, action, config);
      assert PendingBatch(lastSource', lastOperation', lastOrigin', pendingPackages') == NextPending(pending, action, config);
    }
  }

  /** `compact_mergeable_actions`, with the loop of the source. */
  method CompactMergeableActions(systemActions: seq<SystemAction>, config: HostConfiguration)
    returns (merged: seq<SystemAction>)
    requires SourcesConfigured(systemActions, config)
    ensures merged == Compact(systemActions, config)
  {
    merged := [];
    var lastSource := "";
    var lastOperation := Install;
    var lastOrigin := "";
    var pendingPackages: seq<string> := [];
    for i := 0 to |systemActions|
      invariant (lastSource == "") == (pendingPackages == [])
      invariant lastSource != "" ==>
        lastSource in config.packageManagers && config.packageManagers[lastSource].multiple
      invariant merged + CompactFrom(PendingBatch(lastSource, lastOperation, lastOrigin, pendingPackages),
                                     systemActions[i..], config)
                == Compact(systemActions, config)
    {
      CompactStep(merged, PendingBatch(lastSource, lastOperation, lastOrigin, pendingPackages), systemActions, i, config);
      merged, lastSource, lastOperation, lastOrigin, pendingPackages :=
        CompactOne(merged, lastSource, lastOperation, lastOrigin, pendingPackages, systemActions[i], config);
    }
    if |pendingPackages| > 0 {
      merged, pendingPackages := FlushPendingActions(merged, lastSource, pendingPackages, lastOperation, lastOrigin);
    }
  }

  // ---------------------------------------------------------------------
  // What compaction preserves

  /** The actions compaction never batches, in order. */
  function Unbatched(s: seq<SystemAction>, config: HostConfiguration): seq<SystemAction>
  {
    if s == [] then []
    else (if Mergeable(s[0], config) then [] else [s[0]]) + Unbatched(s[1..], config)
  }

  lemma {:induction false} UnbatchedAppend(xs: seq<SystemAction>, ys: seq<SystemAction>, config: HostConfiguration)
    ensures Unbatched(xs + ys, config) == Unbatched(xs, config) + Unbatched(ys, config)
  {
    if xs != [] {
      UnbatchedAppend(xs[1..], ys, config);
      assert (xs + ys)[0] == xs[0] && (xs + ys)[1..] == xs[1..] + ys;
    } else {
      assert xs + ys == ys;
    }
  }

  /** Script and File actions, and package actions of managers that take one
      name per call, come out unchanged and in their relative order. */
  lemma {:induction false} CompactKeepsUnbatched(pending: Option<Batch>, rest: seq<SystemAction>,
                                                 config: HostConfiguration)
    requires RunValid(pending, config)
    ensures Unbatched(CompactFrom(pending, rest, config), config) == Unbatched(rest, config)
    decreases |rest|
  {
    if rest == [] {
      assert Unbatched(Flush(pending), config) == [];
    } else {
      var a := rest[0];
      CompactKeepsUnbatched(NextPending(pending, a, config), rest[1..], config);
      UnbatchedAppend(Emitted(pending, a, config), CompactFrom(NextPending(pending, a, config), rest[1..], config), config);
      assert Unbatched(Flush(pending), config) == [];
      if !Mergeable(a, config) {
        UnbatchedAppend(Flush(pending), [a], config);
      }
    }
  }

  /** The whole-list form: compaction keeps every unbatched action in order. */
  lemma CompactUnbatched(actions: seq<SystemAction>, config: HostConfiguration)
    ensures Unbatched(Compact(actions, config), config) == Unbatched(actions, config)
  {
    CompactKeepsUnbatched(None, actions, config);
  }

  /** The single-name package actions a batched action stands for, one per
      space-separated piece of its name; any other action stands for itself. */
  function Unbatch(a: SystemAction, config: HostConfiguration): (r: seq<SystemAction>)
    ensures !Mergeable(a, config) ==> r == [a]
  {
    if Mergeable(a, config) then
      var pieces := Split(a.name, ' ');
      seq(|pieces|, k requires 0 <= k < |pieces| => Package(a.packageOp, a.source, pieces[k], a.origin))
    else [a]
  }

  /** Every action of a list, unbatched, in order: the inverse of compaction. */
  function Expand(s: seq<SystemAction>, config: HostConfiguration): seq<SystemAction>
  {
    if s == [] then [] else Unbatch(s[0], config) + Expand(s[1..], config)
  }

  lemma {:induction false} ExpandAppend(xs: seq<SystemAction>, ys: seq<SystemAction>, config: HostConfiguration)
    ensures Expand(xs + ys, config) == Expand(xs, config) + Expand(ys, config)
  {
    if xs != [] {
      ExpandAppend(xs[1..], ys, config);
      assert (xs + ys)[0] == xs[0] && (xs + ys)[1..] == xs[1..] + ys;
    } else {
      assert xs + ys == ys;
    }
  }

  /** The package actions a pending run was collected from. */
  function Members(pending: Option<Batch>): seq<SystemAction>
  {
    match pending
    case None => []
    case Some(b) =>
      seq(|b.names|, k requires 0 <= k < |b.names| => Package(b.key.operation, b.key.source, b.names[k], b.key.origin))
  }

  /** No batchable name holds a space, so a joined batch can be split back. */
  predicate NamesSpaceFree(s: seq<SystemAction>, config: HostConfiguration)
  {
    forall k :: 0 <= k < |s| && Mergeable(s[k], config) ==> ' ' !in s[k].name
  }

  predicate PendingSpaceFree(pending: Option<Batch>)
  {
    pending.Some? ==> forall k :: 0 <= k < |pending.value.names| ==> ' ' !in pending.value.names[k]
  }

  /** A flushed run unbatches to the actions it was collected from. */
  lemma FlushUnbatches(pending: Option<Batch>, config: HostConfiguration)
    requires RunValid(pending, config) && PendingSpaceFree(pending)
    ensures Expand(Flush(pending), config) == Members(pending)
  {
    if pending.Some? {
      var b := pending.value;
      SplitJoin(b.names, ' ');
      assert Flush(pending)[1..] == [];
    }
  }

  /** One action: what it emits, unbatched, followed by the run it leaves
      pending, is the old run followed by the action. */
  lemma ExpandStep(pending: Option<Batch>, a: SystemAction, config: HostConfiguration)
    requires RunValid(pending, config) && PendingSpaceFree(pending)
    requires Mergeable(a, config) ==> ' ' !in a.name
    ensures RunValid(NextPending(pending, a, config), config)
    ensures PendingSpaceFree(NextPending(pending, a, config))
    ensures Expand(Emitted(pending, a, config), config) + Members(NextPending(pending, a, config))
         == Members(pending) + [a]
  {
    var next := NextPending(pending, a, config);
    FlushUnbatches(pending, config);
    if Mergeable(a, config) {
      if pending.Some? && pending.value.key == KeyOf(a) {
        assert Members(next) == Members(pending) + [a];
      } else {
        assert Members(next) == [a];
      }
    } else {
      ExpandAppend(Flush(pending), [a], config);
      assert Expand([a], config) == [a] by {
        assert [a][1..] == [];
      }
    }
  }

  lemma NamesSpaceFreeTail(s: seq<SystemAction>, config: HostConfiguration)
    requires s != [] && NamesSpaceFree(s, config)
    ensures NamesSpaceFree(s[1..], config)
    ensures Mergeable(s[0], config) ==> ' ' !in s[0].name
  {
    forall k | 0 <= k < |s[1..]| && Mergeable(s[1..][k], config) ensures ' ' !in s[1..][k].name {
      assert s[1..][k] == s[k + 1];
    }
  }

  lemma Regroup<T>(e: seq<T>, m: seq<T>, m': seq<T>, a: T, r: seq<T>)
    requires e + m' == m + [a]
    ensures e + (m' + r) == m + ([a] + r)
  {
    calc {
      e + (m' + r);
      (e + m') + r;
      (m + [a]) + r;
      m + ([a] + r);
    }
  }

  lemma {:induction false} ExpandCompactFrom(pending: Option<Batch>, rest: seq<SystemAction>, config: HostConfiguration)
    requires RunValid(pending, config) && PendingSpaceFree(pending) && NamesSpaceFree(rest, config)
    ensures Expand(CompactFrom(pending, rest, config), config) == Members(pending) + rest
    decreases |rest|
  {
    if rest == [] {
      FlushUnbatches(pending, config);
    } else {
      var a, r := rest[0], rest[1..];
      var next := NextPending(pending, a, config);
      var emitted := Emitted(pending, a, config);
      NamesSpaceFreeTail(rest, config);
      ExpandStep(pending, a, config);
      ExpandCompactFrom(next, r, config);
      ExpandAppend(emitted, CompactFrom(next, r, config), config);
      Regroup(Expand(emitted, config), Members(pending), Members(next), a, r);
      assert rest == [a] + r;
    }
  }

  /** Round trip: unbatching the compacted list gives the input back, so
      compaction neither drops, adds nor reorders an action, and a batched
      action's name is the space-join of the names of the run it replaces. */
  lemma ExpandCompact(actions: seq<SystemAction>, config: HostConfiguration)
    requires NamesSpaceFree(actions, config)
    ensures Expand(Compact(actions, config), config) == actions
  {
    ExpandCompactFrom(None, actions, config);
  }

  /** No two adjacent batched actions share a key: every run is merged as far
      as it goes. */
  predicate RunsMaximal(out: seq<SystemAction>, config: HostConfiguration)
  {
    forall k :: 0 <= k < |out| - 1 && Mergeable(out[k], config) && Mergeable(out[k + 1], config) ==>
      KeyOf(out[k]) != KeyOf(out[k + 1])
  }

  lemma RunsMaximalAppend(xs: seq<SystemAction>, ys: seq<SystemAction>, config: HostConfiguration)
    requires RunsMaximal(xs, config) && RunsMaximal(ys, config)
    requires xs != [] && ys != [] && Mergeable(xs[|xs| - 1], config) && Mergeable(ys[0], config) ==>
      KeyOf(xs[|xs| - 1]) != KeyOf(ys[0])
    ensures RunsMaximal(xs + ys, config)
  {
    var zs := xs + ys;
    forall k | 0 <= k < |zs| - 1 && Mergeable(zs[k], config) && Mergeable(zs[k + 1], config)
      ensures KeyOf(zs[k]) != KeyOf(zs[k + 1])
    {
      if k + 1 < |xs| {
        assert zs[k] == xs[k] && zs[k + 1] == xs[k + 1];
      } else if k >= |xs| {
        assert zs[k] == ys[k - |xs|] && zs[k + 1] == ys[k - |xs| + 1];
      }
    }
  }

  lemma {:induction false} CompactFromMaximal(pending: Option<Batch>, rest: seq<SystemAction>, config: HostConfiguration)
    requires RunValid(pending, config)
    ensures var out := CompactFrom(pending, rest, config);
      && RunsMaximal(out, config)
      && (pending.Some? ==> out != [] && Mergeable(out[0], config) && KeyOf(out[0]) == pending.value.key)
    decreases |rest|
  {
    if rest != [] {
      var a := rest[0];
      var next := NextPending(pending, a, config);
      var tail := CompactFrom(next, rest[1..], config);
      CompactFromMaximal(next, rest[1..], config);
      if Mergeable(a, config) {
        if !(pending.Some? && pending.value.key == KeyOf(a)) {
          RunsMaximalAppend(Flush(pending), tail, config);
        }
      } else {
        RunsMaximalAppend([a], tail, config);
        RunsMaximalAppend(Flush(pending), [a] + tail, config);
        assert Flush(pending) + [a] + tail == Flush(pending) + ([a] + tail);
      }
    }
  }

  /** Compaction merges every run as far as it goes. */
  lemma CompactMaximal(actions: seq<SystemAction>, config: HostConfiguration)
    ensures RunsMaximal(Compact(actions, config), config)
  {
    CompactFromMaximal(None, actions, config);
  }

  lemma {:induction false} CompactFromLength(pending: Option<Batch>, rest: seq<SystemAction>, config: HostConfiguration)
    ensures |CompactFrom(pending, rest, config)| <= |rest| + |Flush(pending)|
    ensures rest != [] || pending.Some? ==> |CompactFrom(pending, rest, config)| >= 1
    decreases |rest|
  {
    if rest != [] {
      CompactFromLength(NextPending(pending, rest[0], config), rest[1..], config);
    }
  }

  /** Compaction never lengthens the list, and it is empty exactly when the
      input is. */
  lemma CompactLength(actions: seq<SystemAction>, config: HostConfiguration)
    ensures |Compact(actions, config)| <= |actions|
    ensures Compact(actions, config) == [] <==> actions == []
  {
    CompactFromLength(None, actions, config);
  }

  /** The host of the source's compaction test: one manager, "os", that takes
      several names per call. */
  function ExampleConfig(): HostConfiguration
  {
    HostConfiguration(map["os" := PackageManager(true, PackageManagerCommands(
      "paru -S <package>", "paru -Runs <package>", None))])
  }

  /** A batchable action that continues the pending run joins it. */
  lemma JoinsRun(b: Batch, a: SystemAction, rest: seq<SystemAction>, config: HostConfiguration)
    requires Mergeable(a, config) && b.key == KeyOf(a)
    ensures CompactFrom(Some(b), [a] + rest, config) == CompactFrom(Some(Batch(b.key, b.names + [a.name])), rest, config)
  {
    assert ([a] + rest)[1..] == rest;
  }

  /** A batchable action with another key flushes the pending run and starts its own. */
  lemma StartsRun(pending: Option<Batch>, a: SystemAction, rest: seq<SystemAction>, config: HostConfiguration)
    requires Mergeable(a, config) && (pending.Some? ==> pending.value.key != KeyOf(a))
    ensures CompactFrom(pending, [a] + rest, config)
         == Flush(pending) + CompactFrom(Some(Batch(KeyOf(a), [a.name])), rest, config)
  {
    assert ([a] + rest)[1..] == rest;
  }

  /** Any other action flushes the pending run and is kept. */
  lemma PassesThrough(pending: Option<Batch>, a: SystemAction, rest: seq<SystemAction>, config: HostConfiguration)
    requires !Mergeable(a, config)
    ensures CompactFrom(pending, [a] + rest, config) == Flush(pending) + [a] + CompactFrom(None, rest, config)
  {
    assert ([a] + rest)[1..] == rest;
  }

  /** Four more installs of the run's key join it. */
  lemma JoinsFour(k: RunKey, z0: string, z1: string, z2: string, z3: string, z4: string,
                  rest: seq<SystemAction>, config: HostConfiguration)
    requires k.source in config.packageManagers && config.packageManagers[k.source].multiple
    ensures CompactFrom(Some(Batch(k, [z0])),
        [Package(k.operation, k.source, z1, k.origin)] + ([Package(k.operation, k.source, z2, k.origin)]
        + ([Package(k.operation, k.source, z3, k.origin)] + ([Package(k.operation, k.source, z4, k.origin)] + rest))), config)
      == CompactFrom(Some(Batch(k, [z0, z1, z2, z3, z4])), rest, config)
  {
    var p1, p2, p3, p4 := Package(k.operation, k.source, z1, k.origin), Package(k.operation, k.source, z2, k.origin),
                          Package(k.operation, k.source, z3, k.origin), Package(k.operation, k.source, z4, k.origin);
    JoinsRun(Batch(k, [z0]), p1, [p2] + ([p3] + ([p4] + rest)), config);
    JoinsRun(Batch(k, [z0, z1]), p2, [p3] + ([p4] + rest), config);
    JoinsRun(Batch(k, [z0, z1, z2]), p3, [p4] + rest, config);
    JoinsRun(Batch(k, [z0, z1, z2, z3]), p4, rest, config);
    assert [z0] + [z1] == [z0, z1] && [z0, z1] + [z2] == [z0, z1, z2] && [z0, z1, z2] + [z3] == [z0, z1, z2, z3]
      && [z0, z1, z2, z3] + [z4] == [z0, z1, z2, z3, z4];
  }

  lemma JoinFive(z0: string, z1: string, z2: string, z3: string, z4: string)
    ensures Join([z0, z1, z2, z3, z4], " ") == z0 + " " + z1 + " " + z2 + " " + z3 + " " + z4
  {
    assert [z3, z4][1..] == [z4];
    assert Join([z3, z4], " ") == z3 + " " + z4;
    assert [z2, z3, z4][1..] == [z3, z4];
    assert Join([z2, z3, z4], " ") == z2 + " " + (z3 + " " + z4);
    assert [z1, z2, z3, z4][1..] == [z2, z3, z4];
    assert Join([z1, z2, z3, z4], " ") == z1 + " " + (z2 + " " + (z3 + " " + z4));
    assert [z0, z1, z2, z3, z4][1..] == [z1, z2, z3, z4];
    assert Join([z0, z1, z2, z3, z4], " ") == z0 + " " + (z1 + " " + (z2 + " " + (z3 + " " + z4)));
  }

  /** The five installs of one origin, then the two file actions. */
  lemma CompactExampleTail(os: string, origin: string, z0: string, z1: string, z2: string, z3: string, z4: string,
                           f1: SystemAction, f2: SystemAction, config: HostConfiguration)
    requires os in config.packageManagers && config.packageManagers[os].multiple
    requires f1.File? && f2.File?
    ensures CompactFrom(Some(Batch(RunKey(Install, os, origin), [z0])), [
        Package(Install, os, z1, origin), Package(Install, os, z2, origin),
        Package(Install, os, z3, origin), Package(Install, os, z4, origin), f1, f2], config)
      == [Package(Install, os, z0 + " " + z1 + " " + z2 + " " + z3 + " " + z4, origin), f1, f2]
  {
    var k := RunKey(Install, os, origin);
    var files := [f1, f2];
    var p1, p2, p3, p4 := Package(Install, os, z1, origin), Package(Install, os, z2, origin),
                          Package(Install, os, z3, origin), Package(Install, os, z4, origin);
    assert [p1, p2, p3, p4, f1, f2] == [p1] + ([p2] + ([p3] + ([p4] + files)));
    JoinsFour(k, z0, z1, z2, z3, z4, files, config);
    JoinFive(z0, z1, z2, z3, z4);
    PassesThrough(Some(Batch(k, [z0, z1, z2, z3, z4])), f1, [f2], config);
    PassesThrough(None, f2, [], config);
    assert [f2] == [f2] + [];
  }

  /** The shape of the source's compaction test, for any names: two
      uninstalls from one origin merge, an uninstall from another origin stays
      alone, five installs from a third origin merge and two file actions pass
      through. */
  lemma CompactExampleShape(os: string, bashOrigin: string, hostOrigin: string, zshOrigin: string,
                            b0: string, b1: string, fish: string, z0: string, z1: string, z2: string, z3: string,
                            z4: string, f1: SystemAction, f2: SystemAction, config: HostConfiguration)
    requires os in config.packageManagers && config.packageManagers[os].multiple
    requires bashOrigin != hostOrigin && hostOrigin != zshOrigin
    requires f1.File? && f2.File?
    ensures Compact([
        Package(Uninstall, os, b0, bashOrigin), Package(Uninstall, os, b1, bashOrigin),
        Package(Uninstall, os, fish, hostOrigin),
        Package(Install, os, z0, zshOrigin), Package(Install, os, z1, zshOrigin),
        Package(Install, os, z2, zshOrigin), Package(Install, os, z3, zshOrigin),
        Package(Install, os, z4, zshOrigin),
        f1, f2], config)
      == [Package(Uninstall, os, b0 + " " + b1, bashOrigin), Package(Uninstall, os, fish, hostOrigin),
          Package(Install, os, z0 + " " + z1 + " " + z2 + " " + z3 + " " + z4, zshOrigin), f1, f2]
  {
    var zs := [Package(Install, os, z1, zshOrigin), Package(Install, os, z2, zshOrigin),
               Package(Install, os, z3, zshOrigin), Package(Install, os, z4, zshOrigin), f1, f2];
    var fromZsh := [Package(Install, os, z0, zshOrigin)] + zs;
    var fromFish := [Package(Uninstall, os, fish, hostOrigin)] + fromZsh;
    var fromBash1 := [Package(Uninstall, os, b1, bashOrigin)] + fromFish;
    var bk := RunKey(Uninstall, os, bashOrigin);
    var fk := RunKey(Uninstall, os, hostOrigin);
    CompactExampleTail(os, zshOrigin, z0, z1, z2, z3, z4, f1, f2, config);
    StartsRun(Some(Batch(fk, [fish])), Package(Install, os, z0, zshOrigin), zs, config);
    StartsRun(Some(Batch(bk, [b0, b1])), Package(Uninstall, os, fish, hostOrigin), fromZsh, config);
    JoinsRun(Batch(bk, [b0]), Package(Uninstall, os, b1, bashOrigin), fromFish, config);
    StartsRun(None, Package(Uninstall, os, b0, bashOrigin), fromBash1, config);
    assert [b0] + [b1] == [b0, b1];
    assert Join([b0, b1], " ") == b0 + " " + b1 by {
      assert [b0, b1][1..] == [b1];
    }
    assert [Package(Uninstall, os, b0, bashOrigin)] + fromBash1 == [
        Package(Uninstall, os, b0, bashOrigin), Package(Uninstall, os, b1, bashOrigin),
        Package(Uninstall, os, fish, hostOrigin),
        Package(Install, os, z0, zshOrigin), Package(Install, os, z1, zshOrigin),
        Package(Install, os, z2, zshOrigin), Package(Install, os, z3, zshOrigin),
        Package(Install, os, z4, zshOrigin),
        f1, f2];
  }

  /** The source's compaction test itself; the expected merged names are the
      test's, written as the space-separated concatenations they are. */
  lemma CompactExample()
    ensures Compact([
        Package(Uninstall, "os", "bash", "packages/bash"),
        Package(Uninstall, "os", "bash-completion", "packages/bash"),
        Package(Uninstall, "os", "fish", "hosts/Kelgors-Desktop"),
        Package(Install, "os", "zsh", "packages/zsh"),
        Package(Install, "os", "zsh-syntax-highlighting", "packages/zsh"),
        Package(Install, "os", "zsh-autosuggestions", "packages/zsh"),
        Package(Install, "os", "zsh-history-substring-search", "packages/zsh"),
        Package(Install, "os", "zsh-theme-powerlevel10k", "packages/zsh"),
        File(Link, "zshrc", "~/.zshrc", "packages/zsh"),
        File(Copy, "profile", "~/.$USER.profile", "packages/zsh")
      ], ExampleConfig())
      == [
        Package(Uninstall, "os", "bash" + " " + "bash-completion", "packages/bash"),
        Package(Uninstall, "os", "fish", "hosts/Kelgors-Desktop"),
        Package(Install, "os", "zsh" + " " + "zsh-syntax-highlighting" + " " + "zsh-autosuggestions" + " "
                               + "zsh-history-substring-search" + " " + "zsh-theme-powerlevel10k", "packages/zsh"),
        File(Link, "zshrc", "~/.zshrc", "packages/zsh"),
        File(Copy, "profile", "~/.$USER.profile", "packages/zsh")
      ]
  {
    CompactExampleShape("os", "packages/bash", "hosts/Kelgors-Desktop", "packages/zsh",
      "bash", "bash-completion", "fish", "zsh", "zsh-syntax-highlighting", "zsh-autosuggestions",
      "zsh-history-substring-search", "zsh-theme-powerlevel10k",
      File(Link, "zshrc", "~/.zshrc", "packages/zsh"), File(Copy, "profile", "~/.$USER.profile", "packages/zsh"),
      ExampleConfig());
  }
}
