/** The package-definition records of `src/package.rs` and their one-line
    text forms: a dependency is written `source:name` and a link `src:dest`. */
module Package {
  import opened Wrappers
  import opened Strings

  /** `dependency_default_source`: the source of a dependency written without one. */
  const DefaultSource: string := "os"

  /** The source that marks a dependency on another package of the repository. */
  const DotSource: string := "dot"

  datatype DependencyDefinition = DependencyDefinition(source: string, name: string)

  datatype LinkFileDefinition = LinkFileDefinition(src: string, dest: string, copy: bool)

  /** A package as read from its `package.yml`; `name` is the directory's name. */
  datatype PackageDefinition = PackageDefinition(
    name: string,
    description: string,
    dependencies: seq<DependencyDefinition>,
    postInstall: Option<string>,
    links: seq<LinkFileDefinition>)

  /** `Display for DependencyDefinition`: `source:name`. */
  function DisplayDependency(d: DependencyDefinition): (s: string)
    ensures |s| == |d.source| + 1 + |d.name|
    ensures s[..|d.source|] == d.source && s[|d.source|] == ':' && s[|d.source| + 1..] == d.name
  {
    d.source + ":" + d.name
  }

  /** `FromStr for DependencyDefinition`: split at every ':'; a string without
      one is a bare name of the default source, otherwise the source is the
      first piece and the name the last. It never fails. */
  function ParseDependency(value: string): (r: Result<DependencyDefinition, string>)
    ensures r.Ok?
  {
    var parts := Split(value, ':');
    Ok(DependencyDefinition(if |parts| == 1 then DefaultSource else parts[0], parts[|parts| - 1]))
  }

  /** A string without ':' is a bare name from the default source. */
  lemma ParseBareDependency(value: string)
    requires ':' !in value
    ensures ParseDependency(value) == Ok(DependencyDefinition(DefaultSource, value))
  {
    SplitWithout(value, ':');
  }

  /** With a ':', the source is everything before the first ':' and the name
      everything after the last one; the middle is dropped. */
  lemma ParseQualifiedDependency(value: string)
    requires ':' in value
    ensures var d := ParseDependency(value).value;
      && |d.source| < |value| && value[..|d.source|] == d.source && ':' !in d.source && value[|d.source|] == ':'
      && |d.name| < |value| && value[|value| - |d.name|..] == d.name && ':' !in d.name
      && value[|value| - |d.name| - 1] == ':'
  {
    SplitWithout(value, ':');
    FirstPiece(value, ':');
    LastPiece(value, ':');
  }

  /** Displaying a dependency whose fields hold no ':' parses back to it. */
  lemma DependencyRoundTrip(d: DependencyDefinition)
    requires ':' !in d.source && ':' !in d.name
    ensures ParseDependency(DisplayDependency(d)) == Ok(d)
  {
    SplitAfterFirst(d.source, ':', d.name);
    SplitWithout(d.name, ':');
    assert d.source + ":" + d.name == d.source + [':'] + d.name;
  }

  /** A string with exactly one ':' is the display of what it parses to. */
  lemma DependencyDisplayParse(value: string)
    requires |Split(value, ':')| == 2
    ensures DisplayDependency(ParseDependency(value).value) == value
  {
    var parts := Split(value, ':');
    JoinSplit(value, ':');
    assert parts[1..] == [parts[1]];
  }

  /** `Display for LinkFileDefinition`: `src:dest`; the copy flag is not shown. */
  function DisplayLink(l: LinkFileDefinition): (s: string)
    ensures |s| == |l.src| + 1 + |l.dest|
    ensures s[..|l.src|] == l.src && s[|l.src|] == ':' && s[|l.src| + 1..] == l.dest
  {
    l.src + ":" + l.dest
  }

  /** `FromStr for LinkFileDefinition`: the first two ':'-pieces are source
      and destination, any further pieces are ignored, and the link is never
      a copy; a string without ':' is refused. */
  function ParseLink(value: string): (r: Result<LinkFileDefinition, string>)
    ensures r.Err? <==> ':' !in value
    ensures r.Ok? ==> !r.value.copy
  {
    var parts := Split(value, ':');
    SplitWithout(value, ':');
    if |parts| < 2 then Err("Wrong format, needing {src}:{dest}")
    else Ok(LinkFileDefinition(parts[0], parts[1], false))
  }

  /** A parsed link's source is everything before the first ':', and its
      destination runs from there up to the next ':' or the end. */
  lemma ParseLinkFields(value: string)
    requires ':' in value
    ensures var l := ParseLink(value).value;
      |l.src| < |value| && value[..|l.src|] == l.src && ':' !in l.src && value[|l.src|] == ':'
    ensures var l := ParseLink(value).value;
      var rest := if |l.src| < |value| then value[|l.src| + 1..] else [];
      && |l.dest| <= |rest| && rest[..|l.dest|] == l.dest && ':' !in l.dest
      && (|l.dest| < |rest| ==> rest[|l.dest|] == ':')
  {
    SplitWithout(value, ':');
    FirstPiece(value, ':');
    var parts := Split(value, ':');
    var a := parts[0];
    var rest := value[|a| + 1..];
    assert value == a + [':'] + rest;
    SplitAfterFirst(a, ':', rest);
    FirstPiece(rest, ':');
  }

  /** Displaying a link that is not a copy and whose fields hold no ':'
      parses back to it. */
  lemma LinkRoundTrip(l: LinkFileDefinition)
    requires !l.copy && ':' !in l.src && ':' !in l.dest
    ensures ParseLink(DisplayLink(l)) == Ok(l)
  {
    SplitAfterFirst(l.src, ':', l.dest);
    SplitWithout(l.dest, ':');
    assert l.src + ":" + l.dest == l.src + [':'] + l.dest;
  }

  /** A string with exactly one ':' is the display of the link it parses to. */
  lemma LinkDisplayParse(value: string)
    requires |Split(value, ':')| == 2
    ensures ParseLink(value).Ok? && DisplayLink(ParseLink(value).value) == value
  {
    var parts := Split(value, ':');
    SplitWithout(value, ':');
    JoinSplit(value, ':');
    assert parts[1..] == [parts[1]];
  }
}
