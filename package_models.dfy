/** The second reading of dependency strings, in `src/models/package_definition.rs`:
    a dependency is either a system package or a local ("dot") one. */
module PackageModels {
  import opened Strings
  import Package

  datatype PackageSource = System | Local

  /** `#[default]`: a dependency is a system package unless said otherwise. */
  const DefaultPackageSource: PackageSource := System

  datatype DependencyDefinition = DependencyDefinition(name: string, source: PackageSource)

  /** `From<&str> for PackageSource`: exactly "dot" is local. */
  function SourceFrom(value: string): (r: PackageSource)
    ensures r == Local <==> value == Package.DotSource
    ensures r == System <==> value != Package.DotSource
  {
    if value == Package.DotSource then Local else System
  }

  /** `From<&str> for DependencyDefinition`: the name is the last ':'-piece and
      the source is read from the first; it never fails. */
  function DependencyFrom(value: string): (r: DependencyDefinition)
  {
    var parts := Split(value, ':');
    DependencyDefinition(parts[|parts| - 1], SourceFrom(parts[0]))
  }

  /** The name is the longest ':'-free suffix of the string. */
  lemma DependencyFromName(value: string)
    ensures var d := DependencyFrom(value);
      && |d.name| <= |value| && value[|value| - |d.name|..] == d.name && ':' !in d.name
      && (|d.name| < |value| ==> value[|value| - |d.name| - 1] == ':')
  {
    LastPiece(value, ':');
  }

  /** The source is local exactly when the longest ':'-free prefix is "dot". */
  lemma DependencyFromSource(value: string)
    ensures DependencyFrom(value).source == Local <==>
      (exists k :: 0 <= k <= |value| && value[..k] == Package.DotSource && ':' !in value[..k]
                   && (k == |value| || value[k] == ':'))
  {
    FirstPiece(value, ':');
    var p := Split(value, ':')[0];
    if DependencyFrom(value).source == Local {
      assert value[..|p|] == Package.DotSource;
    }
  }

  /** The readings the source relies on: "vim" is the system package "vim",
      and "dot" alone is a local package named "dot". */
  lemma DependencyFromExamples()
    ensures DependencyFrom("vim") == DependencyDefinition("vim", System)
    ensures DependencyFrom("dot") == DependencyDefinition("dot", Local)
    ensures DependencyFrom("dot:vim") == DependencyDefinition("vim", Local)
  {
    SplitWithout("vim", ':');
    SplitWithout("dot", ':');
    SplitAfterFirst("dot", ':', "vim");
    SplitWithout("vim", ':');
    assert "dot:vim" == "dot" + [':'] + "vim";
  }

  /** Both readings agree on the name of every dependency string, and on
      whether it is local whenever the string names a source; they differ on
      the bare string "dot", which `Package.ParseDependency` reads as the
      system package "dot". */
  lemma AgreesWithPackage(value: string)
    ensures DependencyFrom(value).name == Package.ParseDependency(value).value.name
    ensures ':' in value ==>
      (DependencyFrom(value).source == Local <==> Package.ParseDependency(value).value.source == Package.DotSource)
    ensures ':' !in value ==> Package.ParseDependency(value).value.source == Package.DefaultSource
  {
    SplitWithout(value, ':');
  }

  lemma BareDotDisagrees()
    ensures DependencyFrom("dot").source == Local
    ensures Package.ParseDependency("dot").value.source == Package.DefaultSource
  {
    SplitWithout("dot", ':');
  }
}
