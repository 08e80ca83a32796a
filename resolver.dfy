/** The dependency resolver of `src/resolver.rs`: starting from a package, load
    every package it reaches through "dot" dependencies and collect them by
    name.

    The files under `packages/<name>/package.yml` are a store passed in: a
    name absent from the store has no file, and a name mapped to None has a
    file that does not parse. The source has no cycle detection, so the
    resolver is specified for acyclic stores: a ghost `rank` puts every
    loadable package above the dot dependencies it loads. */
module Resolver {
  import opened Wrappers
  import Strings
  import opened Package
  import Planner

  type Store = map<string, Option<PackageDefinition>>

  datatype ResolveError = MissingPackage(name: string) | ParseError(name: string)

  predicate Loadable(store: Store, name: string)
  {
    name in store && store[name].Some?
  }

  /** The pieces of a '/'-split path that `Path::components` keeps as
      normal components: empty pieces and "." are dropped. */
  function NormalComponents(pieces: seq<string>): seq<string>
  {
    if pieces == [] then []
    else (if pieces[0] == "" || pieces[0] == "." then [] else [pieces[0]]) + NormalComponents(pieces[1..])
  }

  /** Every normal component is a piece, neither empty nor ".". */
  lemma {:induction false} NormalComponentsPieces(pieces: seq<string>)
    ensures forall c :: c in NormalComponents(pieces) ==> c in pieces && c != "" && c != "."
  {
    if pieces != [] {
      NormalComponentsPieces(pieces[1..]);
    }
  }

  /** The index of the last `c` in `s`, or -1. */
  function LastIndex(s: string, c: char): (i: int)
    ensures -1 <= i < |s|
  {
    if s == [] then -1
    else if s[|s| - 1] == c then |s| - 1
    else LastIndex(s[..|s| - 1], c)
  }

  /** `LastIndex` finds the last `c`, or reports that there is none. */
  lemma {:induction false} LastIndexSpec(s: string, c: char)
    ensures var i := LastIndex(s, c);
      && (i >= 0 ==> s[i] == c)
      && (forall k :: i < k < |s| ==> s[k] != c)
  {
    if s != [] && s[|s| - 1] != c {
      LastIndexSpec(s[..|s| - 1], c);
    }
  }

  /** `Path::file_stem` of a file name. */
  function FileStem(f: string): string
  {
    var i := LastIndex(f, '.');
    if i <= 0 then f else f[..i]
  }

  /** The stem is the name cut before its last '.', unless that '.' opens
      the name or there is none. */
  lemma FileStemSpec(f: string)
    ensures var stem := FileStem(f);
      && ('.' !in f ==> stem == f)
      && |stem| <= |f| && stem == f[..|stem|]
      && (f != [] ==> stem != [])
      && (stem != f ==> f[|stem|] == '.' && '.' !in f[|stem| + 1..])
      && ((exists k :: 0 < k < |f| && f[k] == '.') ==> stem != f)
  {
    LastIndexSpec(f, '.');
  }

  /** The name `load` gives the package at `packages/<name>/package.yml`:
      the file stem of that file's parent directory, which is the last
      normal component of `name`, or "packages" when it has none. */
  function DirStem(name: string): string
  {
    var cs := NormalComponents(Strings.Split(name, '/'));
    FileStem(if cs == [] then "packages" else cs[|cs| - 1])
  }

  /** The directory stem is one component: it holds no '/', and is never empty. */
  lemma DirStemComponent(name: string)
    ensures '/' !in DirStem(name) && DirStem(name) != ""
  {
    var pieces := Strings.Split(name, '/');
    Strings.SplitPiecesFree(name, '/');
    var cs := NormalComponents(pieces);
    NormalComponentsPieces(pieces);
    var last := if cs == [] then "packages" else cs[|cs| - 1];
    if cs != [] {
      assert cs[|cs| - 1] in cs;
    }
    assert '/' !in last && last != "";
    FileStemSpec(last);
    var stem := FileStem(last);
    assert forall k :: 0 <= k < |stem| ==> stem[k] == last[k];
  }

  /** A name of one component is its own directory: its stem names the package. */
  lemma DirStemSingle(name: string)
    requires '/' !in name && name != "" && name != "."
    ensures DirStem(name) == FileStem(name)
  {
    Strings.SplitWithout(name, '/');
    assert NormalComponents([name]) == [name] + NormalComponents([]);
  }

  /** A plain name, one component without '.', names its package itself. */
  lemma DirStemPlain(name: string)
    requires name != "" && '/' !in name && '.' !in name
    ensures DirStem(name) == name
  {
    DirStemSingle(name);
    FileStemSpec(name);
  }

  /** Only the directory's stem names the package: an extension is dropped. */
  lemma DirStemExtension(base: string, ext: string)
    requires base != "" && '/' !in base && '.' !in base
    requires '/' !in ext && '.' !in ext
    ensures DirStem(base + ['.'] + ext) == base
  {
    var f := base + ['.'] + ext;
    assert f[|base|] == '.';
    assert f != "." by {
      assert |f| >= 2;
    }
    DirStemSingle(f);
    FileStemSpec(f);
    var stem := FileStem(f);
    assert forall k :: 0 <= k < |f| && k != |base| ==> f[k] != '.' by {
      forall k | 0 <= k < |f| && k != |base| ensures f[k] != '.' {
        if k < |base| {
          assert f[k] == base[k];
        } else {
          assert f[k] == ext[k - |base| - 1];
        }
      }
    }
    assert stem != f;
    assert stem == base by {
      assert |stem| == |base|;
      assert forall k :: 0 <= k < |stem| ==> stem[k] == f[k] == base[k];
    }
  }

  /** "nvim.lua" loads as the package "nvim". */
  lemma DirStemDropsExtension()
    ensures DirStem("nvim.lua") == "nvim"
  {
    assert "nvim.lua" == "nvim" + ['.'] + "lua";
    DirStemExtension("nvim", "lua");
  }

  /** Only the last component of a nested name names the package. */
  lemma DirStemLastComponent(dir: string, base: string)
    requires '/' !in dir && dir != "" && dir != "."
    requires '/' !in base && base != "" && base != "."
    ensures DirStem(dir + ['/'] + base) == FileStem(base)
  {
    Strings.SplitWithout(base, '/');
    Strings.SplitAfterFirst(dir, '/', base);
    var pieces := Strings.Split(dir + ['/'] + base, '/');
    assert pieces == [dir, base];
    assert NormalComponents(pieces) == [dir] + NormalComponents(pieces[1..]);
    assert NormalComponents(pieces[1..]) == [base] + NormalComponents([]);
  }

  /** "tools/fish" loads as "fish". */
  lemma DirStemNested()
    ensures DirStem("tools/fish") == "fish"
  {
    assert "tools/fish" == "tools" + ['/'] + "fish";
    DirStemLastComponent("tools", "fish");
    FileStemSpec("fish");
  }

  /** Where the source panics, the model still names the package: a ".."
      directory is named ".", the cut before its last '.', and a name made
      only of '/' is named "packages". */
  lemma DirStemPanicCases()
    ensures DirStem("..") == "."
    ensures DirStem("/") == "packages"
  {
    var up := "..";
    Strings.SplitWithout(up, '/');
    assert NormalComponents([up]) == [up] + NormalComponents([]);
    LastIndexSpec(up, '.');
    assert up[1] == '.';
    assert LastIndex(up, '.') == 1;
    assert Strings.Split("/", '/') == ["", ""] by {
      assert "/"[1..] == [];
    }
    assert NormalComponents(["", ""]) == [];
    var root := "packages";
    Strings.SplitWithout(root, '.');
    LastIndexSpec(root, '.');
  }

  /** `PackageDefinition::load`: the parsed file, named after the stem of
      its directory. */
  function Load(store: Store, name: string): (def: PackageDefinition)
    requires Loadable(store, name)
    ensures def.name == DirStem(name) && def.dependencies == store[name].value.dependencies
    ensures def.description == store[name].value.description
    ensures def.links == store[name].value.links && def.postInstall == store[name].value.postInstall
  {
    store[name].value.(name := DirStem(name))
  }

  /** Every loadable dot dependency in `deps` ranks below `bound`. */
  ghost predicate DepsBelow(deps: seq<DependencyDefinition>, store: Store, rank: map<string, nat>, bound: nat)
  {
    forall k :: 0 <= k < |deps| && deps[k].source == DotSource && Loadable(store, deps[k].name) ==>
      deps[k].name in rank && rank[deps[k].name] < bound
  }

  /** The store has no dependency cycle: each loadable package ranks above the
      loadable dot dependencies it declares. */
  ghost predicate Ranked(store: Store, rank: map<string, nat>)
  {
    forall n :: Loadable(store, n) ==> n in rank && DepsBelow(store[n].value.dependencies, store, rank, rank[n])
  }

  lemma DepsBelowTail(deps: seq<DependencyDefinition>, store: Store, rank: map<string, nat>, bound: nat)
    requires deps != [] && DepsBelow(deps, store, rank, bound)
    ensures DepsBelow(deps[1..], store, rank, bound)
  {
    forall k | 0 <= k < |deps[1..]| && deps[1..][k].source == DotSource && Loadable(store, deps[1..][k].name)
      ensures deps[1..][k].name in rank && rank[deps[1..][k].name] < bound
    {
      assert deps[1..][k] == deps[k + 1];
    }
  }

  /** The resolver's loop over `deps`, with the map gathered so far: a
      non-dot dependency is skipped; a dot dependency is loaded (failing if
      its file is missing or does not parse), its own dependencies are
      resolved and merged in, and then it is inserted under its name. */
  function ResolveDeps(deps: seq<DependencyDefinition>, store: Store, rank: map<string, nat>, bound: nat,
                       acc: map<string, PackageDefinition>): Result<map<string, PackageDefinition>, ResolveError>
    requires Ranked(store, rank) && DepsBelow(deps, store, rank, bound)
    decreases bound, |deps|
  {
    if deps == [] then Ok(acc)
    else
      var d := deps[0];
      DepsBelowTail(deps, store, rank, bound);
      if d.source != DotSource then ResolveDeps(deps[1..], store, rank, bound, acc)
      else if d.name !in store then Err(MissingPackage(d.name))
      else if store[d.name].None? then Err(ParseError(d.name))
      else
        var definition := Load(store, d.name);
        var sub := ResolveDeps(definition.dependencies, store, rank, rank[d.name], map[]);
        if sub.Err? then Err(sub.error)
        else ResolveDeps(deps[1..], store, rank, bound, (acc + sub.value)[d.name := definition])
  }

  /** `resolve_dependencies`. */
  function Resolve(package: PackageDefinition, store: Store, rank: map<string, nat>, bound: nat)
    : Result<map<string, PackageDefinition>, ResolveError>
    requires Ranked(store, rank) && DepsBelow(package.dependencies, store, rank, bound)
  {
    ResolveDeps(package.dependencies, store, rank, bound, map[])
  }

  /** The dot names reachable from `deps`: an independent, set-based
      reference for what the resolver collects. */
  function Reach(deps: seq<DependencyDefinition>, store: Store, rank: map<string, nat>, bound: nat): set<string>
    requires Ranked(store, rank) && DepsBelow(deps, store, rank, bound)
    decreases bound, |deps|
  {
    if deps == [] then {}
    else
      var d := deps[0];
      DepsBelowTail(deps, store, rank, bound);
      var here :=
        if d.source != DotSource then {}
        else if Loadable(store, d.name) then {d.name} + Reach(store[d.name].value.dependencies, store, rank, rank[d.name])
        else {d.name};
      here + Reach(deps[1..], store, rank, bound)
  }

  /** Every map value is the package loaded for its key. */
  predicate Loaded(m: map<string, PackageDefinition>, store: Store)
  {
    forall n :: n in m ==> Loadable(store, n) && m[n] == Load(store, n)
  }

  /** Every loadable name reachable below `bound` ranks below it. */
  lemma {:induction false} ReachBelow(deps: seq<DependencyDefinition>, store: Store, rank: map<string, nat>, bound: nat)
    requires Ranked(store, rank) && DepsBelow(deps, store, rank, bound)
    ensures forall n :: n in Reach(deps, store, rank, bound) && Loadable(store, n) ==> n in rank && rank[n] < bound
    decreases bound, |deps|
  {
    if deps != [] {
      var d := deps[0];
      DepsBelowTail(deps, store, rank, bound);
      ReachBelow(deps[1..], store, rank, bound);
      if d.source == DotSource && Loadable(store, d.name) {
        ReachBelow(store[d.name].value.dependencies, store, rank, rank[d.name]);
      }
    }
  }

  /** Resolution succeeds exactly when every reachable dot name is loadable,
      and a failure names a reachable package that is missing or does not
      parse. */
  lemma {:induction false} ResolveDepsOk(deps: seq<DependencyDefinition>, store: Store, rank: map<string, nat>,
                                         bound: nat, acc: map<string, PackageDefinition>)
    requires Ranked(store, rank) && DepsBelow(deps, store, rank, bound)
    ensures var r := ResolveDeps(deps, store, rank, bound, acc);
      var reach := Reach(deps, store, rank, bound);
      && (r.Ok? <==> forall n :: n in reach ==> Loadable(store, n))
      && (r.Err? ==> r.error.name in reach && !Loadable(store, r.error.name))
    decreases bound, |deps|
  {
    if deps != [] {
      var d := deps[0];
      DepsBelowTail(deps, store, rank, bound);
      if d.source != DotSource {
        ResolveDepsOk(deps[1..], store, rank, bound, acc);
      } else if Loadable(store, d.name) {
        var definition := Load(store, d.name);
        ResolveDepsOk(definition.dependencies, store, rank, rank[d.name], map[]);
        var sub := ResolveDeps(definition.dependencies, store, rank, rank[d.name], map[]);
        if sub.Ok? {
          ResolveDepsOk(deps[1..], store, rank, bound, (acc + sub.value)[d.name := definition]);
        }
      }
    }
  }

  /** Merging a sub-result and inserting a loaded package keeps every value
      the loaded package of its key. */
  lemma LoadedMerge(acc: map<string, PackageDefinition>, sub: map<string, PackageDefinition>, store: Store, name: string)
    requires Loaded(acc, store) && Loaded(sub, store) && Loadable(store, name)
    ensures Loaded((acc + sub)[name := Load(store, name)], store)
    ensures ((acc + sub)[name := Load(store, name)]).Keys == acc.Keys + sub.Keys + {name}
  {
    var merged := acc + sub;
    var def := Load(store, name);
    var m := merged[name := def];
    assert merged.Keys == acc.Keys + sub.Keys;
    forall n | n in m
      ensures Loadable(store, n) && m[n] == Load(store, n)
    {
      if n != name {
        assert m[n] == merged[n];
        if n in sub {
          assert merged[n] == sub[n];
        } else {
          assert merged[n] == acc[n];
        }
      }
    }
  }

  /** A successful resolution adds exactly the reachable names to the map
      gathered so far, each mapped to the package loaded for it. */
  lemma {:induction false} ResolveDepsKeys(deps: seq<DependencyDefinition>, store: Store, rank: map<string, nat>,
                                           bound: nat, acc: map<string, PackageDefinition>)
    requires Ranked(store, rank) && DepsBelow(deps, store, rank, bound) && Loaded(acc, store)
    ensures var r := ResolveDeps(deps, store, rank, bound, acc);
      r.Ok? ==> r.value.Keys == acc.Keys + Reach(deps, store, rank, bound) && Loaded(r.value, store)
    decreases bound, |deps|
  {
    if deps != [] {
      var d := deps[0];
      DepsBelowTail(deps, store, rank, bound);
      if d.source != DotSource {
        ResolveDepsKeys(deps[1..], store, rank, bound, acc);
      } else if Loadable(store, d.name) {
        var definition := Load(store, d.name);
        ResolveDepsKeys(definition.dependencies, store, rank, rank[d.name], map[]);
        var sub := ResolveDeps(definition.dependencies, store, rank, rank[d.name], map[]);
        if sub.Ok? {
          var merged := (acc + sub.value)[d.name := definition];
          LoadedMerge(acc, sub.value, store, d.name);
          ResolveDepsKeys(deps[1..], store, rank, bound, merged);
          assert ResolveDeps(deps, store, rank, bound, acc) == ResolveDeps(deps[1..], store, rank, bound, merged);
          assert Reach(deps, store, rank, bound)
              == {d.name} + Reach(definition.dependencies, store, rank, rank[d.name]) + Reach(deps[1..], store, rank, bound);
        }
      }
    }
  }

  /** The whole-package form: success exactly when every reachable dot
      dependency loads, and then the map's keys are exactly the reachable dot
      names, each mapped to the package loaded for it. */
  lemma ResolveSpec(package: PackageDefinition, store: Store, rank: map<string, nat>, bound: nat)
    requires Ranked(store, rank) && DepsBelow(package.dependencies, store, rank, bound)
    ensures var r := Resolve(package, store, rank, bound);
      var reach := Reach(package.dependencies, store, rank, bound);
      && (r.Ok? <==> forall n :: n in reach ==> Loadable(store, n))
      && (r.Ok? ==> r.value.Keys == reach && Loaded(r.value, store))
      && (r.Err? ==> r.error.name in reach && !Loadable(store, r.error.name))
  {
    ResolveDepsOk(package.dependencies, store, rank, bound, map[]);
    ResolveDepsKeys(package.dependencies, store, rank, bound, map[]);
  }

  /** A package resolved from the store is not among its own dependencies. */
  lemma ResolveExcludesRoot(root: string, store: Store, rank: map<string, nat>)
    requires Ranked(store, rank) && Loadable(store, root)
    ensures var package := Load(store, root);
      var r := Resolve(package, store, rank, rank[root]);
      r.Ok? ==> root !in r.value
  {
    var deps := Load(store, root).dependencies;
    ResolveDepsOk(deps, store, rank, rank[root], map[]);
    ResolveDepsKeys(deps, store, rank, rank[root], map[]);
    ReachBelow(deps, store, rank, rank[root]);
  }

  /** The direct dot dependencies of a package are all reached; other
      dependencies are reached only through some dot package. */
  lemma {:induction false} ReachDirect(deps: seq<DependencyDefinition>, store: Store, rank: map<string, nat>, bound: nat)
    requires Ranked(store, rank) && DepsBelow(deps, store, rank, bound)
    ensures forall k :: 0 <= k < |deps| && deps[k].source == DotSource ==> deps[k].name in Reach(deps, store, rank, bound)
    decreases |deps|
  {
    if deps != [] {
      DepsBelowTail(deps, store, rank, bound);
      ReachDirect(deps[1..], store, rank, bound);
      assert forall k :: 1 <= k < |deps| ==> deps[k] == deps[1..][k - 1];
    }
  }

  /** With no dot dependency, nothing is loaded and the map is empty. */
  lemma {:induction false} ResolveNoDots(deps: seq<DependencyDefinition>, store: Store, rank: map<string, nat>, bound: nat)
    requires Ranked(store, rank) && DepsBelow(deps, store, rank, bound)
    requires forall k :: 0 <= k < |deps| ==> deps[k].source != DotSource
    ensures ResolveDeps(deps, store, rank, bound, map[]) == Ok(map[])
    decreases |deps|
  {
    if deps != [] {
      DepsBelowTail(deps, store, rank, bound);
      assert forall k :: 0 <= k < |deps[1..]| ==> deps[1..][k] == deps[k + 1];
      ResolveNoDots(deps[1..], store, rank, bound);
    }
  }

  /** What a reachable package depends on is reachable too. */
  lemma {:induction false} ReachClosed(deps: seq<DependencyDefinition>, store: Store, rank: map<string, nat>, bound: nat)
    requires Ranked(store, rank) && DepsBelow(deps, store, rank, bound)
    ensures forall n, k ::
      (n in Reach(deps, store, rank, bound) && Loadable(store, n) && 0 <= k < |store[n].value.dependencies|
        && store[n].value.dependencies[k].source == DotSource) ==>
        store[n].value.dependencies[k].name in Reach(deps, store, rank, bound)
    decreases bound, |deps|
  {
    if deps != [] {
      var d := deps[0];
      DepsBelowTail(deps, store, rank, bound);
      ReachClosed(deps[1..], store, rank, bound);
      if d.source == DotSource && Loadable(store, d.name) {
        var sub := store[d.name].value.dependencies;
        ReachClosed(sub, store, rank, rank[d.name]);
        ReachDirect(sub, store, rank, rank[d.name]);
      }
    }
  }

  /** A successful resolution is a repository the planner accepts: it holds
      the package's dot dependencies and, for each of its packages, theirs. */
  lemma ResolvedRepoPlannable(package: PackageDefinition, store: Store, rank: map<string, nat>, bound: nat)
    requires Ranked(store, rank) && DepsBelow(package.dependencies, store, rank, bound)
    ensures var r := Resolve(package, store, rank, bound);
      r.Ok? ==> Planner.DotClosed(r.value) && Planner.DotDepsIn(package.dependencies, r.value)
  {
    var deps := package.dependencies;
    ResolveSpec(package, store, rank, bound);
    ReachDirect(deps, store, rank, bound);
    ReachClosed(deps, store, rank, bound);
  }

  /** The loop state of `resolve_dependencies` accounts for the whole result. */
  lemma ResolveStep(deps: seq<DependencyDefinition>, i: nat, store: Store, rank: map<string, nat>, bound: nat,
                    acc: map<string, PackageDefinition>)
    requires Ranked(store, rank) && DepsBelow(deps, store, rank, bound) && i < |deps|
    ensures DepsBelow(deps[i..], store, rank, bound) && DepsBelow(deps[i + 1..], store, rank, bound)
    ensures deps[i].source == DotSource && Loadable(store, deps[i].name) ==>
      deps[i].name in rank && rank[deps[i].name] < bound
    ensures var d := deps[i];
      ResolveDeps(deps[i..], store, rank, bound, acc) ==
        if d.source != DotSource then ResolveDeps(deps[i + 1..], store, rank, bound, acc)
        else if d.name !in store then Err(MissingPackage(d.name))
        else if store[d.name].None? then Err(ParseError(d.name))
        else
          var sub := ResolveDeps(Load(store, d.name).dependencies, store, rank, rank[d.name], map[]);
          if sub.Err? then Err(sub.error)
          else ResolveDeps(deps[i + 1..], store, rank, bound, (acc + sub.value)[d.name := Load(store, d.name)])
  {
    assert DepsBelow(deps[i..], store, rank, bound) by {
      forall k | 0 <= k < |deps[i..]| && deps[i..][k].source == DotSource && Loadable(store, deps[i..][k].name)
        ensures deps[i..][k].name in rank && rank[deps[i..][k].name] < bound
      {
        assert deps[i..][k] == deps[i + k];
      }
    }
    assert deps[i..][0] == deps[i] && deps[i..][1..] == deps[i + 1..];
  }

  /** `resolve_dependencies`, with the loop and the recursion of the source;
      `rank` and `bound` only witness termination. */
  method ResolveDependencies(package: PackageDefinition, store: Store, ghost rank: map<string, nat>, ghost bound: nat)
    returns (r: Result<map<string, PackageDefinition>, ResolveError>)
    requires Ranked(store, rank) && DepsBelow(package.dependencies, store, rank, bound)
    ensures r == Resolve(package, store, rank, bound)
    decreases bound
  {
    var dependenciesMap: map<string, PackageDefinition> := map[];
    var packageDeps := package.dependencies;
    assert packageDeps[0..] == packageDeps;
    for i := 0 to |packageDeps|
      invariant DepsBelow(packageDeps[i..], store, rank, bound)
      invariant ResolveDeps(packageDeps[i..], store, rank, bound, dependenciesMap) == Resolve(package, store, rank, bound)
    {
      var dependency := packageDeps[i];
      ResolveStep(packageDeps, i, store, rank, bound, dependenciesMap);
      if dependency.source != DotSource {
        continue;
      }
      var depName := dependency.name;
      if depName !in store {
        return Err(MissingPackage(depName));
      }
      if store[depName].None? {
        return Err(ParseError(depName));
      }
      var definition := Load(store, depName);
      var sub := ResolveDependencies(definition, store, rank, rank[depName]);
      if sub.Err? {
        return Err(sub.error);
      }
      dependenciesMap := dependenciesMap + sub.value;
      dependenciesMap := dependenciesMap[depName := definition];
    }
    assert packageDeps[|packageDeps|..] == [];
    return Ok(dependenciesMap);
  }
}
