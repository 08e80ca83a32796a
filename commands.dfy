/** The dependency edits of the `add` and `remove` commands
    (`src/commands/add.rs`, `src/commands/remove.rs`): a host's package
    definition gains or loses dependencies given on the command line, and
    the change is described in a commit message. */
module Commands {
  import opened Wrappers
  import opened Strings
  import opened Package

  /** The command-line names read as dependencies; `from_str` never fails. */
  function ParseAll(names: seq<string>): (deps: seq<DependencyDefinition>)
    ensures |deps| == |names|
    ensures forall k :: 0 <= k < |names| ==> Ok(deps[k]) == ParseDependency(names[k])
  {
    seq(|names|, k requires 0 <= k < |names| => ParseDependency(names[k]).value)
  }

  /** The dependencies of `deps` that are not among `removed`, in order. */
  function RemoveMatching(deps: seq<DependencyDefinition>, removed: seq<DependencyDefinition>): seq<DependencyDefinition>
  {
    if deps == [] then []
    else (if deps[0] in removed then [] else [deps[0]]) + RemoveMatching(deps[1..], removed)
  }

  /** A dependency survives exactly when it was there and is not removed. */
  lemma {:induction false} RemoveMatchingMembers(deps: seq<DependencyDefinition>, removed: seq<DependencyDefinition>)
    ensures forall d :: d in RemoveMatching(deps, removed) <==> d in deps && d !in removed
  {
    if deps != [] {
      RemoveMatchingMembers(deps[1..], removed);
      assert forall d :: d in deps <==> d == deps[0] || d in deps[1..];
    }
  }

  /** The filter works entry by entry, so it keeps the original order. */
  lemma {:induction false} RemoveMatchingAppend(xs: seq<DependencyDefinition>, ys: seq<DependencyDefinition>,
                                                removed: seq<DependencyDefinition>)
    ensures RemoveMatching(xs + ys, removed) == RemoveMatching(xs, removed) + RemoveMatching(ys, removed)
  {
    if xs == [] {
      assert xs + ys == ys;
    } else {
      assert (xs + ys)[0] == xs[0] && (xs + ys)[1..] == xs[1..] + ys;
      RemoveMatchingAppend(xs[1..], ys, removed);
    }
  }

  /** The list never grows, and keeps its length exactly when no entry is
      removed. */
  lemma {:induction false} RemoveMatchingLength(deps: seq<DependencyDefinition>, removed: seq<DependencyDefinition>)
    ensures |RemoveMatching(deps, removed)| <= |deps|
    ensures |RemoveMatching(deps, removed)| == |deps| <==> forall k :: 0 <= k < |deps| ==> deps[k] !in removed
  {
    if deps != [] {
      RemoveMatchingLength(deps[1..], removed);
      assert forall k :: 1 <= k < |deps| ==> deps[k] == deps[1..][k - 1];
    }
  }

  /** Removing the same dependencies again changes nothing. */
  lemma {:induction false} RemoveMatchingIdempotent(deps: seq<DependencyDefinition>, removed: seq<DependencyDefinition>)
    ensures RemoveMatching(RemoveMatching(deps, removed), removed) == RemoveMatching(deps, removed)
  {
    if deps != [] {
      RemoveMatchingIdempotent(deps[1..], removed);
      var rest := RemoveMatching(deps[1..], removed);
      if deps[0] !in removed {
        assert ([deps[0]] + rest)[0] == deps[0] && ([deps[0]] + rest)[1..] == rest;
      } else {
        assert [] + rest == rest;
      }
    }
  }

  /** A bare name removes the default-source dependency of that name and
      keeps a dot dependency of the same name. */
  lemma BareNameRemovesDefaultOnly(name: string)
    requires ':' !in name
    ensures RemoveMatching([DependencyDefinition(DefaultSource, name)], ParseAll([name])) == []
    ensures RemoveMatching([DependencyDefinition(DotSource, name)], ParseAll([name])) == [DependencyDefinition(DotSource, name)]
  {
    ParseBareDependency(name);
    var parsed := ParseAll([name]);
    assert parsed == [DependencyDefinition(DefaultSource, name)];
    assert DotSource != DefaultSource by {
      assert DotSource[0] != DefaultSource[0];
    }
    assert [DependencyDefinition(DotSource, name)][1..] == [];
    assert [DependencyDefinition(DefaultSource, name)][1..] == [];
  }

  /** `build_commit_message` of `remove.rs`. */
  function RemoveCommitMessage(hostname: string, names: seq<string>): string
  {
    if |names| == 1 then "Remove " + names[0] + " from " + hostname
    else "Remove packages from " + hostname + "\n- " + Join(names, "\n- ")
  }

  /** `build_commit_message` of `add.rs`. */
  function AddCommitMessage(hostname: string, names: seq<string>): string
  {
    if |names| == 1 then "Add " + names[0] + " to " + hostname
    else "Add packages to " + hostname + "\n- " + Join(names, "\n- ")
  }

  /** A message about one name is a single line. */
  lemma SingleNameMessageLines(hostname: string, name: string)
    requires '\n' !in hostname && '\n' !in name
    ensures Split(RemoveCommitMessage(hostname, [name]), '\n') == ["Remove " + name + " from " + hostname]
    ensures Split(AddCommitMessage(hostname, [name]), '\n') == ["Add " + name + " to " + hostname]
  {
    NoBreakConcat("Remove ", name);
    NoBreakConcat("Remove " + name, " from ");
    NoBreakConcat("Remove " + name + " from ", hostname);
    NoBreakConcat("Add ", name);
    NoBreakConcat("Add " + name, " to ");
    NoBreakConcat("Add " + name + " to ", hostname);
    SplitWithout("Remove " + name + " from " + hostname, '\n');
    SplitWithout("Add " + name + " to " + hostname, '\n');
  }

  /** The bullet lines of a list of names, one per name. */
  function Bullets(names: seq<string>): seq<string>
  {
    seq(|names|, k requires 0 <= k < |names| => "- " + names[k])
  }

  /** A concatenation of line-break-free strings has no line break. */
  lemma NoBreakConcat(prefix: string, s: string)
    requires '\n' !in prefix && '\n' !in s
    ensures '\n' !in prefix + s
  {
    assert forall k :: 0 <= k < |prefix + s| ==> (prefix + s)[k] == if k < |prefix| then prefix[k] else s[k - |prefix|];
  }

  /** A "\n- "-joined list of names free of line breaks reads back, line by
      line, as one bullet per name. */
  lemma {:induction false} BulletLines(names: seq<string>)
    requires |names| >= 1 && forall k :: 0 <= k < |names| ==> '\n' !in names[k]
    ensures Split("- " + Join(names, "\n- "), '\n') == Bullets(names)
  {
    var first := "- " + names[0];
    NoBreakConcat("- ", names[0]);
    if |names| == 1 {
      SplitWithout(first, '\n');
      assert Bullets(names) == [first];
    } else {
      var rest := "- " + Join(names[1..], "\n- ");
      assert "- " + Join(names, "\n- ") == first + ['\n'] + rest;
      SplitAfterFirst(first, '\n', rest);
      BulletLines(names[1..]);
      assert Bullets(names) == [first] + Bullets(names[1..]);
    }
  }

  /** A message about several names is a header line followed by one bullet
      line per name. */
  lemma CommitMessageLines(hostname: string, names: seq<string>)
    requires |names| >= 2 && '\n' !in hostname && forall k :: 0 <= k < |names| ==> '\n' !in names[k]
    ensures Split(RemoveCommitMessage(hostname, names), '\n') == ["Remove packages from " + hostname] + Bullets(names)
    ensures Split(AddCommitMessage(hostname, names), '\n') == ["Add packages to " + hostname] + Bullets(names)
  {
    BulletLines(names);
    var bullets := "- " + Join(names, "\n- ");
    var removeHeader := "Remove packages from " + hostname;
    var addHeader := "Add packages to " + hostname;
    NoBreakConcat("Remove packages from ", hostname);
    NoBreakConcat("Add packages to ", hostname);
    assert RemoveCommitMessage(hostname, names) == removeHeader + ['\n'] + bullets;
    assert AddCommitMessage(hostname, names) == addHeader + ['\n'] + bullets;
    SplitAfterFirst(removeHeader, '\n', bullets);
    SplitAfterFirst(addHeader, '\n', bullets);
  }

  /** The host definition being edited, as `run_add` and `run_remove` hold it
      between loading and saving it. */
  class HostDefinition {
    var definition: PackageDefinition

    constructor(definition: PackageDefinition)
      ensures this.definition == definition
    {
      this.definition := definition;
    }

    /** The edit of `run_remove`: drop every dependency equal, on source and
        name, to a named one, and report how many went. */
    method RemoveDependencies(names: seq<string>) returns (removedCount: nat)
      modifies this
      ensures definition == old(definition).(dependencies := RemoveMatching(old(definition).dependencies, ParseAll(names)))
      ensures removedCount == |old(definition).dependencies| - |definition.dependencies|
    {
      var prevCount := |definition.dependencies|;
      var oldDependencies := ParseAll(names);
      definition := definition.(dependencies := RemoveMatching(definition.dependencies, oldDependencies));
      RemoveMatchingLength(old(definition).dependencies, oldDependencies);
      removedCount := prevCount - |definition.dependencies|;
    }

    /** The edit of `run_add`: append the named dependencies after the
        existing ones, without checking for duplicates. */
    method AddDependencies(names: seq<string>) returns (addedCount: nat)
      modifies this
      ensures definition == old(definition).(dependencies := old(definition).dependencies + ParseAll(names))
      ensures addedCount == |names|
    {
      var prevCount := |definition.dependencies|;
      var newDependencies := ParseAll(names);
      definition := definition.(dependencies := definition.dependencies + newDependencies);
      addedCount := |definition.dependencies| - prevCount;
    }
  }

  /** Adding keeps the old list as an unchanged prefix, appends one
      dependency per name in argument order (a bare name with the default
      source), and does not deduplicate. */
  lemma AddedDependencies(deps: seq<DependencyDefinition>, names: seq<string>)
    ensures var r := deps + ParseAll(names);
      && |r| == |deps| + |names| && r[..|deps|] == deps
      && forall k :: 0 <= k < |names| && ':' !in names[k] ==> r[|deps| + k] == DependencyDefinition(DefaultSource, names[k])
  {
    forall k | 0 <= k < |names| && ':' !in names[k] {
      ParseBareDependency(names[k]);
    }
  }
}
