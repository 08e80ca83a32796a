/** The action planner of `src/action/mod.rs`: a package definition becomes the
    ordered list of system actions that installs it. Dependencies on other
    packages of the repository ("dot" dependencies) are expanded in place, each
    at most once, by threading the list of names already `loaded` through the
    recursion.

    The planner of the source records no origin; its actions carry the empty
    origin here. */
module Planner {
  import opened Wrappers
  import opened Action
  import opened Package

  /** The packages of the repository, by name. */
  type Repo = map<string, PackageDefinition>

  /** Every dot dependency in `deps` names a package of the repository (the
      source unwraps the lookup). */
  predicate DotDepsIn(deps: seq<DependencyDefinition>, repo: Repo)
  {
    forall k :: 0 <= k < |deps| && deps[k].source == DotSource ==> deps[k].name in repo
  }

  /** Every package of the repository has its dot dependencies in it. */
  predicate DotClosed(repo: Repo)
  {
    forall n :: n in repo ==> DotDepsIn(repo[n].dependencies, repo)
  }

  /** The termination measure: repository packages not yet loaded. */
  function Unloaded(repo: Repo, loaded: seq<string>): nat
  {
    |repo.Keys - (set n | n in loaded)|
  }

  lemma {:induction false} SubsetCardinality(a: set<string>, b: set<string>)
    requires a <= b
    ensures |a| <= |b|
    decreases |a|
  {
    if a != {} {
      var x :| x in a;
      SubsetCardinality(a - {x}, b - {x});
    }
  }

  lemma PrefixMembers(loaded: seq<string>, later: seq<string>)
    requires loaded <= later
    ensures (set n | n in loaded) <= (set n | n in later)
  {
    forall n | n in loaded ensures n in later {
      var k :| 0 <= k < |loaded| && loaded[k] == n;
      assert later[k] == n;
    }
  }

  /** Loading one more repository package that was not loaded shrinks the measure. */
  lemma UnloadedShrinks(repo: Repo, loaded: seq<string>, later: seq<string>, name: string)
    requires loaded <= later && name in repo && name !in later
    ensures Unloaded(repo, later + [name]) < Unloaded(repo, loaded)
  {
    PrefixMembers(loaded, later);
    var a := repo.Keys - (set n | n in loaded);
    var b := repo.Keys - (set n | n in later + [name]);
    assert b <= a - {name};
    assert name in a;
    SubsetCardinality(b, a - {name});
  }

  /** Loading more never grows the measure. */
  lemma UnloadedMonotone(repo: Repo, loaded: seq<string>, later: seq<string>)
    requires loaded <= later
    ensures Unloaded(repo, later) <= Unloaded(repo, loaded)
  {
    PrefixMembers(loaded, later);
    var a := repo.Keys - (set n | n in loaded);
    var b := repo.Keys - (set n | n in later);
    assert b <= a;
    SubsetCardinality(b, a);
  }

  /** The planner's result for a dependency list: the actions of the expanded
      dot dependencies, the system installs, and the names loaded so far. */
  datatype DepsPlan = DepsPlan(dotActions: seq<SystemAction>, systemActions: seq<SystemAction>, loaded: seq<string>)

  /** The planner's result for a package. */
  datatype PackagePlan = PackagePlan(actions: seq<SystemAction>, loaded: seq<string>)

  /** The install action of a system dependency. */
  function InstallAction(d: DependencyDefinition): SystemAction
  {
    Package(Install, d.source, d.name, "")
  }

  /** The file action of a link: a copy when `copy` is set, a link otherwise. */
  function LinkAction(l: LinkFileDefinition): SystemAction
  {
    File(if l.copy then Copy else Link, l.src, l.dest, "")
  }

  /** One file action per link, in declaration order. */
  function LinkActions(links: seq<LinkFileDefinition>): (r: seq<SystemAction>)
    ensures |r| == |links| && forall k :: 0 <= k < |links| ==> FileActionOf(r[k], links[k])
  {
    seq(|links|, k requires 0 <= k < |links| => LinkAction(links[k]))
  }

  /** The script action of a `post_install`, if there is one. */
  function PostInstallActions(postInstall: Option<string>): seq<SystemAction>
  {
    match postInstall
    case None => []
    case Some(script) => [Script(Run, script, "")]
  }

  /** `transform_package_to_actions`: the dependencies' actions, then the
      post-install script, then the links. */
  function PlanPackage(p: PackageDefinition, repo: Repo, loaded: seq<string>): (r: PackagePlan)
    requires DotClosed(repo) && DotDepsIn(p.dependencies, repo)
    ensures loaded <= r.loaded
    decreases Unloaded(repo, loaded), |p.dependencies| + 1
  {
    var deps := PlanDeps(p.dependencies, repo, loaded);
    PackagePlan(deps.dotActions + deps.systemActions + PostInstallActions(p.postInstall) + LinkActions(p.links),
                deps.loaded)
  }

  /** `transform_package_deps_to_actions`, one dependency at a time: a dot
      dependency already loaded is skipped; one not loaded is appended to
      `loaded` and expanded; any other dependency becomes an install. */
  function PlanDeps(deps: seq<DependencyDefinition>, repo: Repo, loaded: seq<string>): (r: DepsPlan)
    requires DotClosed(repo) && DotDepsIn(deps, repo)
    ensures loaded <= r.loaded
    decreases Unloaded(repo, loaded), |deps|
  {
    if deps == [] then DepsPlan([], [], loaded)
    else
      var d := deps[0];
      assert DotDepsIn(deps[1..], repo) by {
        forall k | 0 <= k < |deps[1..]| && deps[1..][k].source == DotSource ensures deps[1..][k].name in repo {
          assert deps[1..][k] == deps[k + 1];
        }
      }
      if d.source == DotSource then
        if d.name in loaded then PlanDeps(deps[1..], repo, loaded)
        else
          UnloadedShrinks(repo, loaded, loaded, d.name);
          var sub := PlanPackage(repo[d.name], repo, loaded + [d.name]);
          UnloadedMonotone(repo, loaded, sub.loaded);
          var rest := PlanDeps(deps[1..], repo, sub.loaded);
          DepsPlan(sub.actions + rest.dotActions, rest.systemActions, rest.loaded)
      else
        var rest := PlanDeps(deps[1..], repo, loaded);
        DepsPlan(rest.dotActions, [InstallAction(d)] + rest.systemActions, rest.loaded)
  }

  /** The loop state of `transform_package_deps_to_actions` accounts for the
      whole plan: what it has gathered, followed by the plan of the rest. */
  predicate Accounts(whole: DepsPlan, dotActions: seq<SystemAction>, systemActions: seq<SystemAction>, rest: DepsPlan)
  {
    && whole.dotActions == dotActions + rest.dotActions
    && whole.systemActions == systemActions + rest.systemActions
    && whole.loaded == rest.loaded
  }

  /** The state of the loop of `transform_package_deps_to_actions` before
      the dependency at `i`: what it has gathered, followed by the plan of
      the dependencies left, is the whole plan. */
  predicate LoopState(whole: DepsPlan, dotActions: seq<SystemAction>, systemActions: seq<SystemAction>,
                      deps: seq<DependencyDefinition>, i: nat, repo: Repo, loaded: seq<string>)
  {
    && DotClosed(repo) && i <= |deps| && DotDepsIn(deps[i..], repo)
    && Accounts(whole, dotActions, systemActions, PlanDeps(deps[i..], repo, loaded))
  }

  lemma DotDepsInSuffix(deps: seq<DependencyDefinition>, i: nat, repo: Repo)
    requires DotDepsIn(deps, repo) && i <= |deps|
    ensures DotDepsIn(deps[i..], repo)
  {
    forall k | 0 <= k < |deps[i..]| && deps[i..][k].source == DotSource ensures deps[i..][k].name in repo {
      assert deps[i..][k] == deps[i + k];
    }
  }

  /** A dot dependency already loaded is skipped. */
  lemma SkipLoaded(whole: DepsPlan, dotActions: seq<SystemAction>, systemActions: seq<SystemAction>,
                   deps: seq<DependencyDefinition>, i: nat, repo: Repo, loaded: seq<string>)
    requires DotClosed(repo) && i < |deps|
    requires deps[i].source == DotSource && deps[i].name in loaded
    requires DotDepsIn(deps[i..], repo) && DotDepsIn(deps[i + 1..], repo)
    requires Accounts(whole, dotActions, systemActions, PlanDeps(deps[i..], repo, loaded))
    ensures Accounts(whole, dotActions, systemActions, PlanDeps(deps[i + 1..], repo, loaded))
  {
    assert deps[i..][0] == deps[i] && deps[i..][1..] == deps[i + 1..];
  }

  /** A dot dependency not loaded yet contributes its own plan. */
  lemma ExpandUnloaded(whole: DepsPlan, dotActions: seq<SystemAction>, systemActions: seq<SystemAction>,
                       deps: seq<DependencyDefinition>, i: nat, repo: Repo, loaded: seq<string>, sub: PackagePlan)
    requires DotClosed(repo) && i < |deps|
    requires deps[i].source == DotSource && deps[i].name !in loaded && deps[i].name in repo
    requires DotDepsIn(deps[i..], repo) && DotDepsIn(deps[i + 1..], repo)
    requires Accounts(whole, dotActions, systemActions, PlanDeps(deps[i..], repo, loaded))
    requires sub == PlanPackage(repo[deps[i].name], repo, loaded + [deps[i].name])
    ensures Accounts(whole, dotActions + sub.actions, systemActions, PlanDeps(deps[i + 1..], repo, sub.loaded))
  {
    assert deps[i..][0] == deps[i] && deps[i..][1..] == deps[i + 1..];
  }

  /** Any other dependency contributes an install. */
  lemma InstallSystem(whole: DepsPlan, dotActions: seq<SystemAction>, systemActions: seq<SystemAction>,
                      deps: seq<DependencyDefinition>, i: nat, repo: Repo, loaded: seq<string>)
    requires DotClosed(repo) && i < |deps|
    requires deps[i].source != DotSource
    requires DotDepsIn(deps[i..], repo) && DotDepsIn(deps[i + 1..], repo)
    requires Accounts(whole, dotActions, systemActions, PlanDeps(deps[i..], repo, loaded))
    ensures Accounts(whole, dotActions, systemActions + [InstallAction(deps[i])], PlanDeps(deps[i + 1..], repo, loaded))
  {
    assert deps[i..][0] == deps[i] && deps[i..][1..] == deps[i + 1..];
  }

  /** One turn of the loop of `transform_package_deps_to_actions`: the
      dependency at `i` is skipped, expanded or installed, and the loop state
      still accounts for the whole plan. */
  method VisitDependency(ghost whole: DepsPlan, dotActions: seq<SystemAction>, systemActions: seq<SystemAction>,
                         deps: seq<DependencyDefinition>, i: nat, repo: Repo,
                         ghost start: seq<string>, loaded: seq<string>)
    returns (dotActions': seq<SystemAction>, systemActions': seq<SystemAction>, loaded': seq<string>)
    requires i < |deps| && start <= loaded
    requires LoopState(whole, dotActions, systemActions, deps, i, repo, loaded)
    ensures start <= loaded'
    ensures LoopState(whole, dotActions', systemActions', deps, i + 1, repo, loaded')
    decreases Unloaded(repo, start), 0
  {
    DotDepsInSuffix(deps[i..], 1, repo);
    assert deps[i..][1..] == deps[i + 1..];
    var dependency := deps[i];
    dotActions', systemActions', loaded' := dotActions, systemActions, loaded;
    if dependency.source == DotSource {
      if dependency.name in loaded {
        SkipLoaded(whole, dotActions, systemActions, deps, i, repo, loaded);
        return;
      }
      UnloadedShrinks(repo, start, loaded, dependency.name);
      var sub;
      sub, loaded' := TransformPackageToActions(repo[dependency.name], repo, loaded + [dependency.name]);
      ExpandUnloaded(whole, dotActions, systemActions, deps, i, repo, loaded, PackagePlan(sub, loaded'));
      dotActions' := dotActions + sub;
      return;
    }
    InstallSystem(whole, dotActions, systemActions, deps, i, repo, loaded);
    systemActions' := systemActions + [InstallAction(dependency)];
  }

  /** `transform_package_deps_to_actions`, with the loop of the source: the
      actions of the expanded dot dependencies come first, then the system
      installs; `loaded` is passed in and handed back as the source's
      `&mut Vec` is. */
  method TransformPackageDepsToActions(package: PackageDefinition, repo: Repo, loaded: seq<string>)
    returns (actions: seq<SystemAction>, loaded': seq<string>)
    requires DotClosed(repo) && DotDepsIn(package.dependencies, repo)
    ensures var plan := PlanDeps(package.dependencies, repo, loaded);
      actions == plan.dotActions + plan.systemActions && loaded' == plan.loaded
    decreases Unloaded(repo, loaded), 1
  {
    var dependenciesActions: seq<SystemAction> := [];
    var systemActions: seq<SystemAction> := [];
    loaded' := loaded;
    if |package.dependencies| == 0 {
      return dependenciesActions, loaded';
    }
    var packageDeps := package.dependencies;
    ghost var whole := PlanDeps(packageDeps, repo, loaded);
    assert packageDeps[0..] == packageDeps;
    for i := 0 to |packageDeps|
      invariant loaded <= loaded'
      invariant LoopState(whole, dependenciesActions, systemActions, packageDeps, i, repo, loaded')
    {
      dependenciesActions, systemActions, loaded' :=
        VisitDependency(whole, dependenciesActions, systemActions, packageDeps, i, repo, loaded, loaded');
    }
    actions := dependenciesActions + systemActions;
  }

  /** `transform_package_to_actions`. */
  method TransformPackageToActions(package: PackageDefinition, repo: Repo, loaded: seq<string>)
    returns (actions: seq<SystemAction>, loaded': seq<string>)
    requires DotClosed(repo) && DotDepsIn(package.dependencies, repo)
    ensures PackagePlan(actions, loaded') == PlanPackage(package, repo, loaded)
    decreases Unloaded(repo, loaded), 2
  {
    var packageActions;
    packageActions, loaded' := TransformPackageDepsToActions(package, repo, loaded);
    if package.postInstall.Some? {
      packageActions := packageActions + [Script(Run, package.postInstall.value, "")];
    }
    if |package.links| > 0 {
      packageActions := packageActions + LinkActions(package.links);
    }
    actions := packageActions;
  }

  // ---------------------------------------------------------------------
  // What the planner promises

  /** One install per system dependency, in declaration order. */
  function SystemInstalls(deps: seq<DependencyDefinition>): seq<SystemAction>
  {
    if deps == [] then []
    else (if deps[0].source == DotSource then [] else [InstallAction(deps[0])]) + SystemInstalls(deps[1..])
  }

  /** The system installs of a dependency list do not depend on what is loaded. */
  lemma {:induction false} PlanDepsSystemActions(deps: seq<DependencyDefinition>, repo: Repo, loaded: seq<string>)
    requires DotClosed(repo) && DotDepsIn(deps, repo)
    ensures PlanDeps(deps, repo, loaded).systemActions == SystemInstalls(deps)
    decreases |deps|
  {
    if deps != [] {
      var d := deps[0];
      DotDepsInSuffix(deps, 1, repo);
      if d.source == DotSource {
        if d.name in loaded {
          PlanDepsSystemActions(deps[1..], repo, loaded);
        } else {
          var sub := PlanPackage(repo[d.name], repo, loaded + [d.name]);
          PlanDepsSystemActions(deps[1..], repo, sub.loaded);
        }
      } else {
        PlanDepsSystemActions(deps[1..], repo, loaded);
      }
    }
  }

  /** A package's plan, in order: the actions of its unloaded dot
      dependencies, one install per system dependency, the post-install
      script if any, and one copy or link per link. */
  lemma PlanPackageOrder(p: PackageDefinition, repo: Repo, loaded: seq<string>)
    requires DotClosed(repo) && DotDepsIn(p.dependencies, repo)
    ensures PlanPackage(p, repo, loaded).actions
         == PlanDeps(p.dependencies, repo, loaded).dotActions + SystemInstalls(p.dependencies)
            + PostInstallActions(p.postInstall) + LinkActions(p.links)
  {
    PlanDepsSystemActions(p.dependencies, repo, loaded);
  }

  /** `action` is the file action the planner derives from the link `l`: a
      copy exactly when `copy` is set and a link otherwise, with the link's
      src and dest and the empty origin. */
  predicate FileActionOf(action: SystemAction, l: LinkFileDefinition)
  {
    && action.File?
    && action.src == l.src
    && action.dest == l.dest
    && action.origin == ""
    && action.fileOp != Remove
    && (action.fileOp == Copy <==> l.copy)
  }

  /** A plan ends with its package's links, one file action per link in
      declaration order; the post-install script, when there is one, comes
      right before them. */
  lemma PlanPackageLinks(p: PackageDefinition, repo: Repo, loaded: seq<string>)
    requires DotClosed(repo) && DotDepsIn(p.dependencies, repo)
    ensures var actions := PlanPackage(p, repo, loaded).actions;
      && |actions| >= |p.links|
      && (forall k :: 0 <= k < |p.links| ==> FileActionOf(actions[|actions| - |p.links|..][k], p.links[k]))
      && (p.postInstall.Some? ==>
            |actions| > |p.links| && actions[|actions| - |p.links| - 1] == Script(Run, p.postInstall.value, ""))
  {
    var deps := PlanDeps(p.dependencies, repo, loaded);
    var head := deps.dotActions + deps.systemActions + PostInstallActions(p.postInstall);
    var links := LinkActions(p.links);
    var actions := PlanPackage(p, repo, loaded).actions;
    assert actions == head + links;
    assert actions[|actions| - |p.links|..] == links;
    forall k | 0 <= k < |p.links|
      ensures FileActionOf(links[k], p.links[k])
    {
    }
    if p.postInstall.Some? {
      assert actions[|head| - 1] == head[|head| - 1];
    }
  }

  predicate NoDuplicates(s: seq<string>)
  {
    forall i, j :: 0 <= i < j < |s| ==> s[i] != s[j]
  }

  lemma AppendFresh(s: seq<string>, n: string)
    requires NoDuplicates(s) && n !in s
    ensures NoDuplicates(s + [n])
  {
  }

  /** Planning a package keeps `loaded` free of duplicates: each repository
      package is expanded at most once. */
  lemma {:induction false} PlanPackageNoDuplicates(p: PackageDefinition, repo: Repo, loaded: seq<string>)
    requires DotClosed(repo) && DotDepsIn(p.dependencies, repo) && NoDuplicates(loaded)
    ensures NoDuplicates(PlanPackage(p, repo, loaded).loaded)
    decreases Unloaded(repo, loaded), |p.dependencies| + 1
  {
    PlanDepsNoDuplicates(p.dependencies, repo, loaded);
  }

  lemma {:induction false} PlanDepsNoDuplicates(deps: seq<DependencyDefinition>, repo: Repo, loaded: seq<string>)
    requires DotClosed(repo) && DotDepsIn(deps, repo) && NoDuplicates(loaded)
    ensures NoDuplicates(PlanDeps(deps, repo, loaded).loaded)
    decreases Unloaded(repo, loaded), |deps|
  {
    if deps != [] {
      var d := deps[0];
      DotDepsInSuffix(deps, 1, repo);
      if d.source == DotSource && d.name !in loaded {
        UnloadedShrinks(repo, loaded, loaded, d.name);
        AppendFresh(loaded, d.name);
        var sub := PlanPackage(repo[d.name], repo, loaded + [d.name]);
        PlanPackageNoDuplicates(repo[d.name], repo, loaded + [d.name]);
        UnloadedMonotone(repo, loaded, sub.loaded);
        PlanDepsNoDuplicates(deps[1..], repo, sub.loaded);
      } else {
        PlanDepsNoDuplicates(deps[1..], repo, loaded);
      }
    }
  }

  /** Planning only ever loads packages of the repository. */
  lemma {:induction false} PlanPackageLoadsRepo(p: PackageDefinition, repo: Repo, loaded: seq<string>)
    requires DotClosed(repo) && DotDepsIn(p.dependencies, repo)
    ensures forall n :: n in PlanPackage(p, repo, loaded).loaded ==> n in loaded || n in repo
    decreases Unloaded(repo, loaded), |p.dependencies| + 1
  {
    PlanDepsLoadsRepo(p.dependencies, repo, loaded);
  }

  lemma {:induction false} PlanDepsLoadsRepo(deps: seq<DependencyDefinition>, repo: Repo, loaded: seq<string>)
    requires DotClosed(repo) && DotDepsIn(deps, repo)
    ensures forall n :: n in PlanDeps(deps, repo, loaded).loaded ==> n in loaded || n in repo
    decreases Unloaded(repo, loaded), |deps|
  {
    if deps != [] {
      var d := deps[0];
      DotDepsInSuffix(deps, 1, repo);
      if d.source == DotSource && d.name !in loaded {
        UnloadedShrinks(repo, loaded, loaded, d.name);
        var sub := PlanPackage(repo[d.name], repo, loaded + [d.name]);
        PlanPackageLoadsRepo(repo[d.name], repo, loaded + [d.name]);
        UnloadedMonotone(repo, loaded, sub.loaded);
        PlanDepsLoadsRepo(deps[1..], repo, sub.loaded);
      } else {
        PlanDepsLoadsRepo(deps[1..], repo, loaded);
      }
    }
  }

  /** After planning a dependency list, each of its dot dependencies is loaded. */
  lemma {:induction false} PlanDepsLoadsDots(deps: seq<DependencyDefinition>, repo: Repo, loaded: seq<string>)
    requires DotClosed(repo) && DotDepsIn(deps, repo)
    ensures var r := PlanDeps(deps, repo, loaded).loaded;
      forall k :: 0 <= k < |deps| && deps[k].source == DotSource ==> deps[k].name in r
    decreases |deps|
  {
    if deps != [] {
      var d := deps[0];
      DotDepsInSuffix(deps, 1, repo);
      var r := PlanDeps(deps, repo, loaded).loaded;
      if d.source == DotSource && d.name !in loaded {
        var sub := PlanPackage(repo[d.name], repo, loaded + [d.name]);
        PlanDepsLoadsDots(deps[1..], repo, sub.loaded);
        PrefixMembers(loaded + [d.name], sub.loaded);
        PrefixMembers(sub.loaded, r);
        assert d.name in loaded + [d.name];
      } else {
        PlanDepsLoadsDots(deps[1..], repo, loaded);
        PrefixMembers(loaded, r);
      }
      forall k | 0 <= k < |deps| && deps[k].source == DotSource ensures deps[k].name in r {
        if k > 0 {
          assert deps[1..][k - 1] == deps[k];
        }
      }
    }
  }

  /** When every dot dependency is loaded already, only the system installs
      remain and `loaded` is unchanged. */
  lemma {:induction false} PlanDepsAllLoaded(deps: seq<DependencyDefinition>, repo: Repo, loaded: seq<string>)
    requires DotClosed(repo) && DotDepsIn(deps, repo)
    requires forall k :: 0 <= k < |deps| && deps[k].source == DotSource ==> deps[k].name in loaded
    ensures PlanDeps(deps, repo, loaded) == DepsPlan([], SystemInstalls(deps), loaded)
    decreases |deps|
  {
    if deps != [] {
      DotDepsInSuffix(deps, 1, repo);
      assert forall k :: 0 <= k < |deps[1..]| ==> deps[1..][k] == deps[k + 1];
      PlanDepsAllLoaded(deps[1..], repo, loaded);
    }
  }

  /** A package with only dependencies. */
  function DepsOnly(name: string, deps: seq<DependencyDefinition>): PackageDefinition
  {
    PackageDefinition(name, "", deps, None, [])
  }

  /** A diamond: "a" and "b" both depend on "c", which installs "x". */
  function DiamondRepo(): Repo
  {
    map["a" := DepsOnly("a", [DependencyDefinition(DotSource, "c")]),
        "b" := DepsOnly("b", [DependencyDefinition(DotSource, "c")]),
        "c" := DepsOnly("c", [DependencyDefinition("os", "x")])]
  }

  lemma DiamondRepoClosed()
    ensures DotClosed(DiamondRepo())
  {
  }

  /** Expanding "a" first loads and expands "c". */
  lemma DiamondExpandsA()
    ensures DotClosed(DiamondRepo())
    ensures PlanPackage(DiamondRepo()["a"], DiamondRepo(), ["a"])
         == PackagePlan([Package(Install, "os", "x", "")], ["a", "c"])
  {
    var repo := DiamondRepo();
    var c := DependencyDefinition(DotSource, "c");
    var x := DependencyDefinition("os", "x");
    DiamondRepoClosed();
    assert [x][1..] == [] && [c][1..] == [];
    assert ["a"] + ["c"] == ["a", "c"] && "c" !in ["a"];
    assert PlanDeps([x], repo, ["a", "c"]) == DepsPlan([], [InstallAction(x)], ["a", "c"]);
    assert PlanPackage(repo["c"], repo, ["a", "c"]) == PackagePlan([InstallAction(x)], ["a", "c"]);
    assert PlanDeps([c], repo, ["a"]) == DepsPlan([InstallAction(x)], [], ["a", "c"]);
  }

  /** Expanding "b" afterwards finds "c" loaded and adds nothing. */
  lemma DiamondSkipsC()
    ensures DotClosed(DiamondRepo())
    ensures PlanPackage(DiamondRepo()["b"], DiamondRepo(), ["a", "c", "b"]) == PackagePlan([], ["a", "c", "b"])
  {
    var repo := DiamondRepo();
    var c := DependencyDefinition(DotSource, "c");
    DiamondRepoClosed();
    assert [c][1..] == [] && "c" in ["a", "c", "b"];
    assert PlanDeps([c], repo, ["a", "c", "b"]) == DepsPlan([], [], ["a", "c", "b"]);
  }

  /** After "a", the rest of the root's list: "b" adds nothing, "git" an install. */
  lemma DiamondRootTail()
    ensures DotClosed(DiamondRepo())
    ensures DotDepsIn([DependencyDefinition(DotSource, "b"), DependencyDefinition("os", "git")], DiamondRepo())
    ensures PlanDeps([DependencyDefinition(DotSource, "b"), DependencyDefinition("os", "git")], DiamondRepo(), ["a", "c"])
         == DepsPlan([], [Package(Install, "os", "git", "")], ["a", "c", "b"])
  {
    var repo := DiamondRepo();
    var git := DependencyDefinition("os", "git");
    var deps := [DependencyDefinition(DotSource, "b"), git];
    DiamondRepoClosed();
    DiamondSkipsC();
    assert ["a", "c"] + ["b"] == ["a", "c", "b"] && "b" !in ["a", "c"];
    assert deps[1..] == [git] && [git][1..] == [];
    assert PlanDeps([git], repo, ["a", "c", "b"]) == DepsPlan([], [InstallAction(git)], ["a", "c", "b"]);
  }

  /** The root's dependency list "a", "b", "git" from nothing loaded. */
  lemma DiamondRootDeps()
    ensures DotClosed(DiamondRepo())
    ensures DotDepsIn([DependencyDefinition(DotSource, "a"), DependencyDefinition(DotSource, "b"),
                       DependencyDefinition("os", "git")], DiamondRepo())
    ensures PlanDeps([DependencyDefinition(DotSource, "a"), DependencyDefinition(DotSource, "b"),
                      DependencyDefinition("os", "git")], DiamondRepo(), [])
         == DepsPlan([Package(Install, "os", "x", "")], [Package(Install, "os", "git", "")], ["a", "c", "b"])
  {
    var git := DependencyDefinition("os", "git");
    var deps := [DependencyDefinition(DotSource, "a"), DependencyDefinition(DotSource, "b"), git];
    DiamondRepoClosed();
    DiamondExpandsA();
    DiamondRootTail();
    assert [] + ["a"] == ["a"];
    assert deps[1..] == [DependencyDefinition(DotSource, "b"), git];
  }

  /** Planning a package that needs "a", "b" and the system package "git"
      expands "c" once: its install of "x" comes first, then "git"; "a", "c"
      and "b" are loaded in that order. */
  lemma DiamondExample()
    ensures DotClosed(DiamondRepo())
    ensures PlanPackage(DepsOnly("root", [DependencyDefinition(DotSource, "a"), DependencyDefinition(DotSource, "b"),
                                          DependencyDefinition("os", "git")]), DiamondRepo(), [])
         == PackagePlan([Package(Install, "os", "x", ""), Package(Install, "os", "git", "")], ["a", "c", "b"])
  {
    DiamondRootDeps();
    assert LinkActions([]) == [];
  }
}
