/** The shell-script generator of `src/action/generation.rs`: every planned
    action becomes one command line, grouped under comment lines that name
    the package (and phase) the action comes from. */
module Generation {
  import opened Strings
  import opened Action
  import opened HostConfig

  const Header: string := "# Shell Generation"

  /** The placeholder a package manager's command template holds for the name. */
  const Placeholder: string := "<package>"

  /** What the generator demands: every package source has a manager on the
      host (the lookup is unwrapped with `expect`). */
  predicate SourcesKnown(actions: seq<SystemAction>, config: HostConfiguration)
  {
    forall k :: 0 <= k < |actions| && actions[k].Package? ==> actions[k].source in config.packageManagers
  }

  /** The comment line an action is grouped under. */
  function CommentFor(a: SystemAction): (c: string)
    ensures |c| >= 2 && c[..2] == "# "
  {
    match a
    case Package(_, _, _, origin) => "# " + origin + ":dependencies"
    case Script(_, _, origin) => "# " + origin
    case File(_, _, _, origin) => "# " + origin + ":links"
  }

  /** `pathbuf![origin, src]` on a Unix path: an absolute `src` replaces the
      base, an empty base adds nothing, and otherwise one '/' separates them. */
  function PathJoin(base: string, p: string): (r: string)
    ensures |p| > 0 && p[0] == '/' ==> r == p
    ensures base == [] ==> r == p
    ensures |r| >= |p| && r[|r| - |p|..] == p
  {
    if |p| > 0 && p[0] == '/' then p
    else if base == [] || base[|base| - 1] == '/' then base + p
    else base + "/" + p
  }

  /** The command line of one action. */
  function LineFor(a: SystemAction, config: HostConfiguration): string
    requires a.Package? ==> a.source in config.packageManagers
  {
    match a
    case Package(op, source, name, _) =>
      var commands := config.packageManagers[source].commands;
      ReplaceAll(if op == Install then commands.install else commands.uninstall, Placeholder, name)
    case Script(_, script, _) => script
    case File(op, src, dest, origin) =>
      match op
      case Link => "ln -sf " + dest + " " + PathJoin(origin, src)
      case Copy => "cp " + PathJoin(origin, src) + " " + dest
      case Remove => "rm " + dest
  }

  /** The lines the loop pushes for `actions`, given the last comment pushed. */
  function GenerateFrom(actions: seq<SystemAction>, last: string, config: HostConfiguration): seq<string>
    requires SourcesKnown(actions, config)
  {
    if actions == [] then []
    else
      var comment := CommentFor(actions[0]);
      (if comment != last then [comment] else []) + [LineFor(actions[0], config)]
        + GenerateFrom(actions[1..], comment, config)
  }

  /** `generate_shell_script`; the source wraps the lines in a `Result` that is
      always `Ok`. */
  function Generate(actions: seq<SystemAction>, config: HostConfiguration): seq<string>
    requires SourcesKnown(actions, config)
  {
    [Header] + GenerateFrom(actions, "", config)
  }

  /** Whether action `i` opens a new group: it is the first one, or its
      comment differs from the previous action's. */
  predicate GroupStart(actions: seq<SystemAction>, i: nat)
    requires 0 < |actions| && i < |actions|
  {
    i == 0 || CommentFor(actions[i]) != CommentFor(actions[i - 1])
  }

  /** The lines of action `i` read by position alone: its comment if it opens
      a group, then its command line. */
  function Block(actions: seq<SystemAction>, i: nat, config: HostConfiguration): seq<string>
    requires SourcesKnown(actions, config) && i < |actions|
  {
    (if GroupStart(actions, i) then [CommentFor(actions[i])] else []) + [LineFor(actions[i], config)]
  }

  /** The blocks of actions `i` onwards, in order. */
  function Blocks(actions: seq<SystemAction>, i: nat, config: HostConfiguration): seq<string>
    requires SourcesKnown(actions, config) && i <= |actions|
    decreases |actions| - i
  {
    if i == |actions| then [] else Block(actions, i, config) + Blocks(actions, i + 1, config)
  }

  lemma SourcesKnownSuffix(actions: seq<SystemAction>, i: nat, config: HostConfiguration)
    requires SourcesKnown(actions, config) && i <= |actions|
    ensures SourcesKnown(actions[i..], config)
  {
    assert forall k :: 0 <= k < |actions[i..]| ==> actions[i..][k] == actions[i + k];
  }

  /** The last comment pushed before action `i`, as the loop keeps it. */
  function LastBefore(actions: seq<SystemAction>, i: nat): string
    requires i <= |actions|
  {
    if i == 0 then "" else CommentFor(actions[i - 1])
  }

  /** Threading the last comment through the loop amounts to comparing each
      action's comment with its predecessor's. */
  lemma {:induction false} GenerateFromBlocks(actions: seq<SystemAction>, i: nat, config: HostConfiguration)
    requires SourcesKnown(actions, config) && i <= |actions|
    ensures SourcesKnown(actions[i..], config)
    ensures GenerateFrom(actions[i..], LastBefore(actions, i), config) == Blocks(actions, i, config)
    decreases |actions| - i
  {
    SourcesKnownSuffix(actions, i, config);
    if i < |actions| {
      GenerateFromBlocks(actions, i + 1, config);
      assert actions[i..][0] == actions[i] && actions[i..][1..] == actions[i + 1..];
    }
  }

  /** The generated script is the header followed by every action's block:
      a comment exactly where a new group opens, then the command line. */
  lemma GenerateByPosition(actions: seq<SystemAction>, config: HostConfiguration)
    requires SourcesKnown(actions, config)
    ensures Generate(actions, config) == [Header] + Blocks(actions, 0, config)
  {
    GenerateFromBlocks(actions, 0, config);
    assert actions[0..] == actions;
  }

  /** Each action adds one command line and at most one comment; the first
      action always brings its comment, since no comment is empty. */
  lemma {:induction false} GenerateFromLength(actions: seq<SystemAction>, last: string, config: HostConfiguration)
    requires SourcesKnown(actions, config)
    ensures |actions| <= |GenerateFrom(actions, last, config)| <= 2 * |actions|
    ensures |actions| > 0 && last == "" ==>
      |GenerateFrom(actions, last, config)| >= 2
      && GenerateFrom(actions, last, config)[0] == CommentFor(actions[0])
      && GenerateFrom(actions, last, config)[1] == LineFor(actions[0], config)
  {
    if actions != [] {
      SourcesKnownSuffix(actions, 1, config);
      GenerateFromLength(actions[1..], CommentFor(actions[0]), config);
    }
  }

  /** The script starts with the header, holds between 1 + n and 1 + 2n
      lines, and (for n > 0) its second line is the first action's comment. */
  lemma GenerateShape(actions: seq<SystemAction>, config: HostConfiguration)
    requires SourcesKnown(actions, config)
    ensures var out := Generate(actions, config);
      && |out| >= 1 && out[0] == Header
      && 1 + |actions| <= |out| <= 1 + 2 * |actions|
      && (|actions| > 0 ==> |out| >= 3 && out[1] == CommentFor(actions[0]) && out[2] == LineFor(actions[0], config))
  {
    GenerateFromLength(actions, "", config);
  }

  /** Actions of one group share a single comment: the script is the header,
      that comment, and the command lines in order. */
  lemma {:induction false} GenerateOneGroup(actions: seq<SystemAction>, config: HostConfiguration)
    requires SourcesKnown(actions, config) && |actions| > 0
    requires forall k :: 0 <= k < |actions| ==> CommentFor(actions[k]) == CommentFor(actions[0])
    ensures Generate(actions, config) ==
      [Header, CommentFor(actions[0])] + seq(|actions|, k requires 0 <= k < |actions| => LineFor(actions[k], config))
  {
    var c := CommentFor(actions[0]);
    GroupLines(actions, c, config);
  }

  lemma {:induction false} GroupLines(actions: seq<SystemAction>, c: string, config: HostConfiguration)
    requires SourcesKnown(actions, config)
    requires forall k :: 0 <= k < |actions| ==> CommentFor(actions[k]) == c
    ensures GenerateFrom(actions, c, config) == seq(|actions|, k requires 0 <= k < |actions| => LineFor(actions[k], config))
  {
    if actions != [] {
      SourcesKnownSuffix(actions, 1, config);
      GroupLines(actions[1..], c, config);
    }
  }

  /** When every action opens a new group, every action brings its comment:
      the script has exactly 1 + 2n lines. */
  lemma {:induction false} GenerateAllGroups(actions: seq<SystemAction>, last: string, config: HostConfiguration)
    requires SourcesKnown(actions, config)
    requires |actions| > 0 ==> CommentFor(actions[0]) != last
    requires forall k :: 0 < k < |actions| ==> CommentFor(actions[k]) != CommentFor(actions[k - 1])
    ensures |GenerateFrom(actions, last, config)| == 2 * |actions|
  {
    if actions != [] {
      SourcesKnownSuffix(actions, 1, config);
      GenerateAllGroups(actions[1..], CommentFor(actions[0]), config);
    }
  }

  /** A template without the placeholder is used verbatim; otherwise each
      occurrence is replaced, left to right. */
  lemma {:induction false} ReplaceAllSkip(p: string, t: string, pat: string, rep: string)
    requires |pat| > 0 && pat[0] !in p
    ensures ReplaceAll(p + t, pat, rep) == p + ReplaceAll(t, pat, rep)
  {
    if p != [] {
      var s := p + t;
      assert s[0] == p[0] && s[1..] == p[1..] + t;
      ReplaceAllSkip(p[1..], t, pat, rep);
      if |s| >= |pat| {
        assert s[..|pat|][0] != pat[0];
        assert p == [p[0]] + p[1..];
      } else {
        assert ReplaceAll(t, pat, rep) == t;
      }
    } else {
      assert p + t == t;
    }
  }

  /** A template `<prefix><package>` whose prefix holds no '<' runs the prefix
      followed by the package name. */
  lemma PackageLineTemplate(op: PackageOperation, source: string, name: string, origin: string, config: HostConfiguration,
                            prefix: string)
    requires source in config.packageManagers && '<' !in prefix
    requires var commands := config.packageManagers[source].commands;
      (if op == Install then commands.install else commands.uninstall) == prefix + Placeholder
    ensures LineFor(Package(op, source, name, origin), config) == prefix + name
  {
    ReplaceAllSkip(prefix, Placeholder, Placeholder, name);
    ReplaceAllWhole(Placeholder, name);
  }

  /** The file lines: a link points `dest` at the package's copy of `src`, a
      copy goes the other way, and a removal names only `dest`. */
  lemma FileLines(src: string, dest: string, origin: string, config: HostConfiguration)
    ensures var path := if origin == "" then src else PathJoin(origin, src);
      && LineFor(File(Link, src, dest, origin), config) == "ln -sf " + dest + " " + path
      && LineFor(File(Copy, src, dest, origin), config) == "cp " + path + " " + dest
      && LineFor(File(Remove, src, dest, origin), config) == "rm " + dest
    ensures origin != "" && origin[|origin| - 1] != '/' && (src == "" || src[0] != '/') ==>
      PathJoin(origin, src) == origin + "/" + src
  {
  }

  /** `add_comment`: push the comment unless it repeats the last one, and
      return the comment now last. */
  method AddComment(newComment: string, lastComment: string, output: seq<string>)
    returns (last: string, output': seq<string>)
    ensures last == newComment
    ensures output' == if newComment != lastComment then output + [newComment] else output
  {
    if newComment != lastComment {
      output' := output + [newComment];
      return newComment, output';
    }
    return lastComment, output;
  }

  lemma GenerateStep(out: seq<string>, actions: seq<SystemAction>, i: nat, last: string, config: HostConfiguration)
    requires SourcesKnown(actions, config) && i < |actions|
    ensures SourcesKnown(actions[i..], config) && SourcesKnown(actions[i + 1..], config)
    ensures var comment := CommentFor(actions[i]);
      out + GenerateFrom(actions[i..], last, config) ==
        ((if comment != last then out + [comment] else out) + [LineFor(actions[i], config)])
          + GenerateFrom(actions[i + 1..], comment, config)
  {
    SourcesKnownSuffix(actions, i, config);
    SourcesKnownSuffix(actions, i + 1, config);
    assert actions[i..][0] == actions[i] && actions[i..][1..] == actions[i + 1..];
  }

  /** `generate_shell_script`, as the loop of the source. */
  method GenerateShellScript(actions: seq<SystemAction>, config: HostConfiguration) returns (output: seq<string>)
    requires SourcesKnown(actions, config)
    ensures output == Generate(actions, config)
  {
    var lastComment := "";
    output := [Header];
    assert actions[0..] == actions;
    for i := 0 to |actions|
      invariant SourcesKnown(actions[i..], config)
      invariant output + GenerateFrom(actions[i..], lastComment, config) == Generate(actions, config)
    {
      var action := actions[i];
      GenerateStep(output, actions, i, lastComment, config);
      var line: string;
      match action {
        case Package(op, source, name, origin) =>
          var pm := config.packageManagers[source];
          lastComment, output := AddComment("# " + origin + ":dependencies", lastComment, output);
          line := ReplaceAll(if op == Install then pm.commands.install else pm.commands.uninstall, Placeholder, name);
        case Script(_, script, origin) =>
          lastComment, output := AddComment("# " + origin, lastComment, output);
          line := script;
        case File(op, src, dest, origin) =>
          lastComment, output := AddComment("# " + origin + ":links", lastComment, output);
          var srcPath := PathJoin(origin, src);
          match op {
            case Link => line := "ln -sf " + dest + " " + srcPath;
            case Copy => line := "cp " + srcPath + " " + dest;
            case Remove => line := "rm " + dest;
          }
      }
      output := output + [line];
    }
    assert actions[|actions|..] == [];
  }
}
