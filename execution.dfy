/** The string logic of the action executor in `src/action/execution.rs`: how
    a package manager's command template becomes a program and its argument
    list, and how actions are named in the log and in a script's
    environment. Running processes and touching files are not modelled. */
module Execution {
  import opened Wrappers
  import opened Strings
  import Package

  /** The placeholder a command template holds for the package name(s). */
  const Placeholder: string := "<package>"

  /** A process to start: the program and its arguments. */
  datatype Invocation = Invocation(program: string, args: seq<string>)

  /** The template's words: the trimmed template split at every space. */
  function Tokens(command: string): (tokens: seq<string>)
    ensures |tokens| >= 1
  {
    Split(Trim(command), ' ')
  }

  /** The arguments one template word gives: nothing if it is blank, the
      package names split at spaces if it is the placeholder `marker`, and
      the trimmed word otherwise. */
  function ExpandToken(token: string, marker: string, packageName: string): seq<string>
  {
    var part := Trim(token);
    if part == [] then []
    else if part != marker then [part]
    else Split(packageName, ' ')
  }

  /** `f` applied to each element of `xs`, the results one after the other. */
  function FlatMap<T, U>(xs: seq<T>, f: T -> seq<U>): seq<U>
  {
    if xs == [] then [] else f(xs[0]) + FlatMap(xs[1..], f)
  }

  lemma {:induction false} FlatMapAppend<T, U>(xs: seq<T>, ys: seq<T>, f: T -> seq<U>)
    ensures FlatMap(xs + ys, f) == FlatMap(xs, f) + FlatMap(ys, f)
  {
    if xs == [] {
      assert xs + ys == ys;
    } else {
      assert (xs + ys)[0] == xs[0] && (xs + ys)[1..] == xs[1..] + ys;
      FlatMapAppend(xs[1..], ys, f);
    }
  }

  /** The expansion of template words for a given package string. */
  function Expander(marker: string, packageName: string): string -> seq<string>
  {
    token => ExpandToken(token, marker, packageName)
  }

  /** The arguments of a list of template words: each word's, in order. */
  function Arguments(tokens: seq<string>, marker: string, packageName: string): seq<string>
  {
    FlatMap(tokens, Expander(marker, packageName))
  }

  /** The process `execute_pm_command` starts: the first word is the program,
      the remaining words give the arguments. */
  function PmCommand(command: string, packageName: string): Invocation
  {
    var tokens := Tokens(command);
    Invocation(tokens[0], Arguments(tokens[1..], Placeholder, packageName))
  }

  /** The program is the trimmed template up to its first space. */
  lemma PmCommandProgram(command: string, packageName: string)
    ensures var program := PmCommand(command, packageName).program;
      var t := Trim(command);
      && |program| <= |t| && t[..|program|] == program && ' ' !in program
      && (|program| < |t| ==> t[|program|] == ' ')
  {
    FirstPiece(Trim(command), ' ');
  }

  /** The arguments of consecutive word lists are concatenated. */
  lemma ArgumentsAppend(xs: seq<string>, ys: seq<string>, marker: string, packageName: string)
    ensures Arguments(xs + ys, marker, packageName) == Arguments(xs, marker, packageName) + Arguments(ys, marker, packageName)
  {
    FlatMapAppend(xs, ys, Expander(marker, packageName));
  }

  /** A one-word list gives that word's arguments. */
  lemma ArgumentsOne(token: string, marker: string, packageName: string)
    ensures Arguments([token], marker, packageName) == ExpandToken(token, marker, packageName)
  {
    var f := Expander(marker, packageName);
    assert [token][0] == token && [token][1..] == [];
    assert FlatMap([token], f) == f(token) + FlatMap([], f);
    assert f(token) == ExpandToken(token, marker, packageName);
  }

  /** The three kinds of word, as the loop tells them apart (it trims the
      trimmed word once more, which changes nothing). */
  lemma ExpandCases(token: string, marker: string, packageName: string)
    requires marker != []
    ensures var part := Trim(token);
      && (Trim(part) == [] <==> part == [])
      && (part == [] ==> ExpandToken(token, marker, packageName) == [])
      && (part != [] && part != marker ==> ExpandToken(token, marker, packageName) == [part])
      && (part == marker ==> ExpandToken(token, marker, packageName) == Split(packageName, ' '))
  {
    TrimUnchanged(token);
  }

  /** A word without spaces gives arguments without spaces. */
  lemma ExpandSpaceFree(token: string, marker: string, packageName: string)
    requires ' ' !in token
    ensures forall k :: 0 <= k < |ExpandToken(token, marker, packageName)| ==> ' ' !in ExpandToken(token, marker, packageName)[k]
  {
    TrimChars(token);
    SplitPiecesFree(packageName, ' ');
  }

  /** No argument holds a space: template words and package names are both
      cut at every space. */
  lemma {:induction false} ArgumentsSpaceFree(tokens: seq<string>, marker: string, packageName: string)
    requires forall k :: 0 <= k < |tokens| ==> ' ' !in tokens[k]
    ensures forall k :: 0 <= k < |Arguments(tokens, marker, packageName)| ==> ' ' !in Arguments(tokens, marker, packageName)[k]
  {
    if tokens != [] {
      ArgumentsSpaceFree(tokens[1..], marker, packageName);
      var head := ExpandToken(tokens[0], marker, packageName);
      ExpandSpaceFree(tokens[0], marker, packageName);
      var tail := Arguments(tokens[1..], marker, packageName);
      assert Expander(marker, packageName)(tokens[0]) == head;
      assert Arguments(tokens, marker, packageName) == head + tail;
      assert forall k :: 0 <= k < |head + tail| ==> (head + tail)[k] == if k < |head| then head[k] else tail[k - |head|];
    }
  }

  /** Every argument of a template's invocation is free of spaces. */
  lemma PmCommandSpaceFree(command: string, packageName: string)
    ensures forall k :: 0 <= k < |PmCommand(command, packageName).args| ==> ' ' !in PmCommand(command, packageName).args[k]
  {
    var tokens := Tokens(command);
    SplitPiecesFree(Trim(command), ' ');
    assert forall k :: 0 <= k < |tokens[1..]| ==> tokens[1..][k] == tokens[k + 1];
    ArgumentsSpaceFree(tokens[1..], Placeholder, packageName);
  }

  /** The placeholder stands for the space-separated names of a batched
      action: each name becomes an argument of its own, in order. */
  lemma PlaceholderExpands(names: seq<string>)
    requires |names| >= 1 && forall k :: 0 <= k < |names| ==> ' ' !in names[k]
    ensures ExpandToken(Placeholder, Placeholder, Join(names, " ")) == names
  {
    PlaceholderTrimmed();
    MarkerExpands(Placeholder, names);
  }

  lemma MarkerExpands(marker: string, names: seq<string>)
    requires Trim(marker) == marker && marker != []
    requires |names| >= 1 && forall k :: 0 <= k < |names| ==> ' ' !in names[k]
    ensures ExpandToken(marker, marker, Join(names, " ")) == names
  {
    SplitJoin(names, ' ');
  }

  lemma PlaceholderTrimmed()
    ensures Trim(Placeholder) == Placeholder && ' ' !in Placeholder
  {
    assert Placeholder[0] == '<' && Placeholder[|Placeholder| - 1] == '>';
    TrimUnchanged(Placeholder);
  }

  /** The words of a template `<program> <word> <package>`. */
  lemma TemplateTokens(program: string, word: string)
    requires program != [] && word != []
    requires forall k :: 0 <= k < |program| ==> !IsWhitespace(program[k])
    requires forall k :: 0 <= k < |word| ==> !IsWhitespace(word[k])
    ensures Tokens(program + " " + word + " " + Placeholder) == [program, word, Placeholder]
  {
    var rest := word + [' '] + Placeholder;
    var command := program + [' '] + rest;
    assert program + " " + word + " " + Placeholder == command;
    PlaceholderTrimmed();
    assert command[0] == program[0] && command[|command| - 1] == Placeholder[|Placeholder| - 1];
    TrimUnchanged(command);
    assert ' ' !in program && ' ' !in word;
    SplitAfterFirst(program, ' ', rest);
    SplitAfterFirst(word, ' ', Placeholder);
    SplitWithout(Placeholder, ' ');
  }

  /** A template `<program> <word> <package>` whose program and word hold no
      whitespace starts the program with the word followed by the names. */
  lemma TemplateInvocation(program: string, word: string, names: seq<string>)
    requires program != [] && word != []
    requires forall k :: 0 <= k < |program| ==> !IsWhitespace(program[k])
    requires forall k :: 0 <= k < |word| ==> !IsWhitespace(word[k])
    requires word != Placeholder
    requires |names| >= 1 && forall k :: 0 <= k < |names| ==> ' ' !in names[k]
    ensures PmCommand(program + " " + word + " " + Placeholder, Join(names, " ")) ==
      Invocation(program, [word] + names)
  {
    TemplateTokens(program, word);
    PlaceholderTrimmed();
    WordThenMarker(word, Placeholder, names);
    assert [program, word, Placeholder][1..] == [word, Placeholder];
  }

  /** A plain word followed by the marker gives the word, then the names. */
  lemma WordThenMarker(word: string, marker: string, names: seq<string>)
    requires word != [] && !IsWhitespace(word[0]) && !IsWhitespace(word[|word| - 1]) && word != marker
    requires Trim(marker) == marker && marker != [] && ' ' !in marker
    requires |names| >= 1 && forall k :: 0 <= k < |names| ==> ' ' !in names[k]
    ensures Arguments([word, marker], marker, Join(names, " ")) == [word] + names
  {
    var packageName := Join(names, " ");
    TrimUnchanged(word);
    ExpandCases(word, marker, packageName);
    assert ExpandToken(word, marker, packageName) == [word];
    MarkerExpands(marker, names);
    ArgumentsOne(word, marker, packageName);
    ArgumentsOne(marker, marker, packageName);
    ArgumentsAppend([word], [marker], marker, packageName);
    assert [word] + [marker] == [word, marker];
  }

  /** One word of the template, added to the arguments gathered so far. */
  method ExpandInto(argv: seq<string>, token: string, marker: string, packageName: string) returns (argv': seq<string>)
    requires marker != []
    ensures argv' == argv + ExpandToken(token, marker, packageName)
  {
    var part := Trim(token);
    if Trim(part) == [] {
      ExpandCases(token, marker, packageName);
      return argv;
    }
    if part != marker {
      ExpandCases(token, marker, packageName);
      return argv + [part];
    }
    assert ExpandToken(token, marker, packageName) == Split(packageName, ' ');
    argv' := argv;
    var items := Split(packageName, ' ');
    for j := 0 to |items|
      invariant argv' == argv + items[..j]
    {
      argv' := argv' + [items[j]];
    }
    assert items[..|items|] == items;
  }

  /** `execute_pm_command` up to starting the process: the loop over the
      template's words after the first, which names the program. */
  method BuildPmCommand(command: string, packageName: string) returns (invocation: Invocation)
    ensures invocation == PmCommand(command, packageName)
  {
    var args := Split(Trim(command), ' ');
    var argv: seq<string> := [];
    for index := 1 to |args|
      invariant argv == Arguments(args[1..index], Placeholder, packageName)
    {
      ArgumentsAppend(args[1..index], [args[index]], Placeholder, packageName);
      ArgumentsOne(args[index], Placeholder, packageName);
      assert args[1..index + 1] == args[1..index] + [args[index]];
      argv := ExpandInto(argv, args[index], Placeholder, packageName);
    }
    assert args[1..|args|] == args[1..];
    return Invocation(args[0], argv);
  }

  /** The name logged for a package action: bare for the default source,
      `source:name` otherwise. */
  function LongPackageName(source: string, name: string): (r: string)
    ensures source == Package.DefaultSource ==> r == name
  {
    if source == Package.DefaultSource then name
    else Package.DisplayDependency(Package.DependencyDefinition(source, name))
  }

  /** The logged name reads back, as a dependency string, to the action's
      source and name whenever neither holds ':'. */
  lemma LongNameParses(source: string, name: string)
    requires ':' !in source && ':' !in name
    ensures Package.ParseDependency(LongPackageName(source, name)) == Ok(Package.DependencyDefinition(source, name))
  {
    if source == Package.DefaultSource {
      Package.ParseBareDependency(name);
    } else {
      Package.DependencyRoundTrip(Package.DependencyDefinition(source, name));
    }
  }

  /** The `PACKAGE` variable a script runs with: the origin up to its first ':'. */
  function ScriptPackage(origin: string): (r: string)
    ensures |r| <= |origin| && r == origin[..|r|] && ':' !in r && (|r| < |origin| ==> origin[|r|] == ':')
  {
    FirstPiece(origin, ':');
    Split(origin, ':')[0]
  }

  /** The tag a script is logged under: the origin after its last ':',
      upper-cased. */
  function ScriptTag(origin: string): (r: string)
  {
    var parts := Split(origin, ':');
    ToUpper(parts[|parts| - 1])
  }

  /** The tag is the upper-cased longest ':'-free suffix of the origin. */
  lemma ScriptTagSuffix(origin: string)
    ensures var tag := ScriptTag(origin);
      && |tag| <= |origin| && ':' !in tag
      && tag == ToUpper(origin[|origin| - |tag|..])
      && (|tag| < |origin| ==> origin[|origin| - |tag| - 1] == ':')
  {
    LastPiece(origin, ':');
    var parts := Split(origin, ':');
    var p := parts[|parts| - 1];
    assert forall k :: 0 <= k < |p| ==> UpperChar(p[k]) != ':';
  }

  /** For an origin `package:phase` the script sees the package and is
      logged under the phase; an origin without ':' gives both. */
  lemma OriginSegments(package: string, phase: string)
    requires ':' !in package && ':' !in phase
    ensures ScriptPackage(package + ":" + phase) == package
    ensures ScriptTag(package + ":" + phase) == ToUpper(phase)
    ensures ScriptPackage(package) == package && ScriptTag(package) == ToUpper(package)
  {
    assert package + ":" + phase == package + [':'] + phase;
    SplitAfterFirst(package, ':', phase);
    SplitWithout(phase, ':');
    SplitWithout(package, ':');
  }
}
