# dotstrap core, modelled in Dafny

dotstrap installs a machine from a repository of dotfile "packages". A host
definition lists dependencies. Some come from the system package managers
("os", "flatpak", ...). Others ("dot" dependencies) are packages of the
repository itself, each with its own dependencies, a post-install script and
files to link or copy. The core turns this into a plan:

1. **resolve**: collect every dot package the host reaches, transitively;
2. **plan**: expand the host definition into an ordered list of system
   actions (package installs, scripts, file links and copies), expanding each
   dot package once;
3. **diff**: compare the plan with the lockfile of the previous run, undo
   what disappeared and apply what is new;
4. **compact**: batch adjacent installs of one package manager into one call.

Around that pipeline sit small parsers and string builders:
- the `source:name` and `src:dest` forms of dependencies and links;
- the shell-script generator;
- the argument list a manager's command template gives;
- the `add` and `remove` commands' edits and commit messages.

Modules, one per file:

| file | module | models |
|---|---|---|
| wrappers.dfy | Wrappers | `Option` and `Result` |
| strings.dfy | Strings | Rust's `split`, `join`, `trim`, `replace` and ASCII `to_uppercase` on `seq<char>` |
| action.dfy | Action | `SystemAction` and its operation enums |
| host_config.dfy | HostConfig | the host configuration's shape |
| package.dfy | Package | `src/package.rs` |
| package_models.dfy | PackageModels | `src/models/package_definition.rs` |
| compactor.dfy | Compactor | `compact_mergeable_actions` of `src/action/mod.rs` |
| planner.dfy | Planner | `transform_package_*_to_actions` of `src/action/mod.rs` |
| lockfile.dfy | Lockfile | `src/lockfile.rs` |
| resolver.dfy | Resolver | `src/resolver.rs` |
| generation.dfy | Generation | `src/action/generation.rs` |
| execution.dfy | Execution | the string logic of `src/action/execution.rs` |
| commands.dfy | Commands | the edits of `src/commands/add.rs` and `src/commands/remove.rs` |

Each imperative routine of the source is a method with the source's loop. Its
`ensures` ties the result to a specification function, for example
`CompactMergeableActions` and `Compact`, or `GenerateShellScript` and
`Generate`. The lemmas then prove the promised properties of that function.

Choices where the repository disagrees with itself:

- **Origin.** `SystemAction` in `src/action/mod.rs:28-45` has no `origin` field. The lockfile, the generator, the executor and the compaction test all use a form with `origin`, and so does this model. The planner records no origin, so its actions carry the empty origin.
- **Compaction key.** `src/action/mod.rs:84` compares source and operation only. The compaction test (`src/action/test.rs:9-119`) expects runs from different origins to stay apart, with each batch keeping its origin. The model's key is (operation, source, origin), and `Compactor.CompactExample` proves the test's expectation.
- **Full diff.** `full` replaces only the new-actions half of the diff. The removals of dropped actions are still put first (`src/lockfile.rs:81-91`), as `Lockfile.FullDiffKeepsRemovals` shows.

## Model

| member | source | states |
|---|---|---|
| Package.DisplayDependency | src/package.rs:19-23 | the display is the source, one ':', then the name |
| Package.ParseDependency | src/package.rs:25-39 | parsing a dependency never fails |
| Package.ParseBareDependency | src/package.rs:29-36 | a string without ':' is the whole name with the default source "os" |
| Package.ParseQualifiedDependency | src/package.rs:29-38 | with a ':', the source is the ':'-free text before the first ':' and the name the ':'-free text after the last; the middle is dropped |
| Package.DependencyRoundTrip | src/package.rs:19-39 | displaying a dependency whose fields hold no ':' parses back to it |
| Package.DependencyDisplayParse | src/package.rs:19-39 | a string with exactly one ':' is the display of what it parses to |
| Package.DisplayLink | src/package.rs:50-54 | the display is src, one ':', then dest |
| Package.ParseLink | src/package.rs:56-70 | parsing fails exactly when there is no ':', and a parsed link is never a copy |
| Package.ParseLinkFields | src/package.rs:59-68 | src is the text before the first ':' and dest the text up to the next ':' or the end; extra pieces are ignored |
| Package.LinkRoundTrip | src/package.rs:50-68 | a non-copy link whose fields hold no ':' parses back from its display |
| Package.LinkDisplayParse | src/package.rs:50-68 | a string with exactly one ':' is the display of the link it parses to |
| PackageModels.SourceFrom | src/models/package_definition.rs:11-18 | Local exactly for "dot", System for every other string |
| PackageModels.DependencyFromName | src/models/package_definition.rs:25-33 | of `DependencyFrom`, the `From` conversion: the name is the longest ':'-free suffix, preceded by ':' when shorter than the input |
| PackageModels.DependencyFromSource | src/models/package_definition.rs:25-33 | of `DependencyFrom`, the `From` conversion: the source is Local exactly when the first ':'-piece is "dot" |
| PackageModels.DependencyFromExamples | src/models/package_definition.rs:25-33 | "vim" gives System "vim", "dot" gives Local "dot", "dot:vim" gives Local "vim" |
| PackageModels.AgreesWithPackage | src/models/package_definition.rs:25-33 | this reading and the `from_str` of `package.rs` agree on the name always, and on locality whenever a source is written |
| PackageModels.BareDotDisagrees | src/models/package_definition.rs:11-18 | the bare string "dot" is Local here but the system package "dot" for `from_str` |
| Compactor.FlushPendingActions | src/action/mod.rs:47-59 | one package action with the run's operation, source and origin and the space-joined names is appended, and the pending list is emptied |
| Compactor.CompactOne | src/action/mod.rs:72-116 | one turn of the loop moves the pending run as `NextPending` says and appends what `Emitted` says, keeping "empty source iff no pending names" |
| Compactor.CompactMergeableActions | src/action/mod.rs:62-127 | the loop, with its final flush, computes `Compact` |
| Compactor.CompactKeepsUnbatched | src/action/mod.rs:100-115 | from any valid pending run, the actions that are never batched come out unchanged and in order |
| Compactor.CompactUnbatched | src/action/mod.rs:100-115 | scripts, file actions and package actions of single-name managers keep their relative order through compaction |
| Compactor.FlushUnbatches | src/action/mod.rs:47-59 | a flushed run splits back into the package actions it was collected from |
| Compactor.ExpandStep | src/action/mod.rs:71-117 | per action, what is emitted plus what stays pending is the old run followed by the action |
| Compactor.ExpandCompactFrom | src/action/mod.rs:62-127 | from a pending run, unbatching the output gives the run's members followed by the input |
| Compactor.ExpandCompact | src/action/mod.rs:62-127 | round trip: unbatching the compacted list gives the input back, so nothing is dropped, added or reordered |
| Compactor.CompactFromMaximal | src/action/mod.rs:84-99 | no two adjacent batched outputs share a key, and a pending run opens the output |
| Compactor.CompactMaximal | src/action/mod.rs:84-99 | every run is merged as far as it goes |
| Compactor.CompactFromLength | src/action/mod.rs:66-126 | the output is at most the input plus the pending run, and non-empty if either is |
| Compactor.CompactLength | src/action/mod.rs:66-126 | compaction never lengthens the list, and its result is empty exactly when the input is |
| Compactor.JoinsRun | src/action/mod.rs:94-99 | a batchable action with the pending run's key joins the run |
| Compactor.StartsRun | src/action/mod.rs:84-99 | a batchable action with another key flushes the run and starts its own |
| Compactor.PassesThrough | src/action/mod.rs:100-115 | any other action flushes the pending run and is emitted unchanged |
| Compactor.CompactExampleShape | src/action/test.rs:9-119 | the test's shape for any names: two bash uninstalls merge, fish stays alone, five zsh installs merge, files pass through |
| Compactor.CompactExample | src/action/test.rs:9-119 | the compaction test's input gives exactly its expected five actions |
| Planner.PlanPackageLinks | src/action/mod.rs:182-197 | a plan ends with one file action per link, in order: a copy exactly when `copy` is set and a link otherwise, with the link's src and dest and the empty origin; the post-install script comes right before them |
| Planner.PlanPackage | src/action/mod.rs:169-199 | planning a package only ever adds to `loaded` |
| Planner.PlanDeps | src/action/mod.rs:129-167 | planning a dependency list only ever adds to `loaded` |
| Planner.UnloadedShrinks | src/action/mod.rs:146-152 | appending a repository name not yet loaded strictly shrinks the termination measure |
| Planner.UnloadedMonotone | src/action/mod.rs:146-155 | loading more never grows the measure |
| Planner.SkipLoaded | src/action/mod.rs:146-148 | a dot dependency already loaded contributes nothing |
| Planner.ExpandUnloaded | src/action/mod.rs:149-156 | an unloaded dot dependency contributes its package's whole plan, planned with its name loaded |
| Planner.InstallSystem | src/action/mod.rs:158-163 | any other dependency contributes one install with its source and name |
| Planner.VisitDependency | src/action/mod.rs:143-163 | one turn of the loop keeps the gathered actions followed by the rest's plan equal to the whole plan |
| Planner.TransformPackageDepsToActions | src/action/mod.rs:129-167 | the loop returns the dot dependencies' actions, then the system installs, and the final `loaded` |
| Planner.TransformPackageToActions | src/action/mod.rs:169-199 | the method computes `PlanPackage`: dependencies, then the post-install script, then the links |
| Planner.PlanDepsSystemActions | src/action/mod.rs:158-165 | the system part is one install per non-dot dependency in declaration order, whatever is loaded |
| Planner.PlanPackageOrder | src/action/mod.rs:129-199 | a package's plan is the dot expansions, then one install per system dependency, then the script if any, then one file action per link |
| Planner.PlanPackageNoDuplicates | src/action/mod.rs:146-149 | planning a package keeps `loaded` free of duplicates, so each package is expanded at most once |
| Planner.PlanDepsNoDuplicates | src/action/mod.rs:146-149 | the same for a dependency list |
| Planner.PlanPackageLoadsRepo | src/action/mod.rs:146-155 | only repository packages are ever added to `loaded` |
| Planner.PlanDepsLoadsRepo | src/action/mod.rs:146-155 | the same for a dependency list |
| Planner.PlanDepsLoadsDots | src/action/mod.rs:145-155 | after planning a list, each of its dot dependencies is loaded |
| Planner.PlanDepsAllLoaded | src/action/mod.rs:146-148 | when every dot dependency is loaded already, only the system installs remain and `loaded` is unchanged |
| Planner.DiamondRepoClosed | src/action/mod.rs:150-153 | the diamond repository holds every dot dependency it names |
| Planner.DiamondExpandsA | src/action/mod.rs:146-155 | expanding "a" first expands "c" and loads it |
| Planner.DiamondSkipsC | src/action/mod.rs:146-148 | expanding "b" afterwards finds "c" loaded and adds nothing |
| Planner.DiamondRootTail | src/action/mod.rs:142-165 | after "a", the root's "b" adds nothing and "git" one install |
| Planner.DiamondRootDeps | src/action/mod.rs:142-165 | the root's list a, b, git installs "x" once, then "git", and loads a, c, b |
| Planner.DiamondExample | src/action/mod.rs:129-199 | planning the root expands the shared "c" exactly once |
| Lockfile.MakeDifference | src/lockfile.rs:8-16 | the loop computes `Difference` |
| Lockfile.DifferenceCounts | src/lockfile.rs:8-16 | each element keeps all its occurrences when `to` lacks it and loses them all otherwise |
| Lockfile.DifferenceLength | src/lockfile.rs:8-16 | the difference is never longer than `from` |
| Lockfile.DifferenceMembers | src/lockfile.rs:8-16 | x is in the difference iff x is in `from` and not in `to` |
| Lockfile.DifferenceAppend | src/lockfile.rs:8-16 | the difference is taken piecewise, so `from`'s order is kept |
| Lockfile.DifferenceCovered | src/lockfile.rs:8-16 | a list minus a list holding all its elements is empty |
| Lockfile.Inverse | src/lockfile.rs:36-64 | a package becomes an uninstall with the same source, name and origin, and a file a removal with src "" and the same dest and origin; the panic arm is unreachable |
| Lockfile.AdditiveAllAdditive | src/lockfile.rs:21-35 | everything the filter keeps can be inverted, so the panic arm cannot be reached |
| Lockfile.AdditiveMembers | src/lockfile.rs:21-35 | the filter keeps exactly the installs, links and copies, and drops scripts, uninstalls and removals |
| Lockfile.AdditiveAppend | src/lockfile.rs:21-35 | the filter works piecewise |
| Lockfile.InverseShape | src/lockfile.rs:18-67 | the inversion lists the inverses of the kept actions in reverse order, each in removal form |
| Lockfile.InverseAppend | src/lockfile.rs:65-66 | inverting a concatenation inverts the later part first |
| Lockfile.AdditiveNone | src/lockfile.rs:21-35 | a list of removals has nothing to invert |
| Lockfile.InverseOfInverse | src/lockfile.rs:18-67 | an inversion inverts to nothing |
| Lockfile.InverseExample | src/lockfile.rs:18-67 | an install, a script and a link invert to the link's removal, then the uninstall |
| Lockfile.BuildActionDiff | src/lockfile.rs:69-92 | without a lockfile the plan is returned unchanged; otherwise the inverted removals, then the plan when `full` and the new actions otherwise |
| Lockfile.DiffOfSame | src/lockfile.rs:81-91 | a plan equal to the lockfile gives nothing to do, or the whole plan with `full` |
| Lockfile.DiffShape | src/lockfile.rs:81-91 | removals come first and are all in removal form; an action is applied iff it is planned and new or `full`; every dropped additive action is undone |
| Lockfile.FullDiffKeepsRemovals | src/lockfile.rs:81-91 | `full` does not suppress the removals: a dropped install is still uninstalled |
| Resolver.FileStemSpec | src/package.rs:94-101 | the stem is the name cut before its last '.', unless that '.' opens the name or there is none |
| Resolver.DirStemComponent | src/package.rs:94-101 | a package's name is one non-empty path component |
| Resolver.DirStemSingle | src/package.rs:94-101 | a name of one component is its own directory, named by its file stem |
| Resolver.DirStemPlain | src/package.rs:94-101 | a plain name without '/' or '.' names its package itself |
| Resolver.DirStemExtension | src/package.rs:94-101 | a name `base.ext` loads as the package `base` |
| Resolver.DirStemDropsExtension | src/package.rs:94-101 | "nvim.lua" loads as the package "nvim" |
| Resolver.DirStemLastComponent | src/package.rs:94-101 | in a nested name only the last component names the package |
| Resolver.DirStemNested | src/package.rs:94-101 | "tools/fish" loads as the package "fish" |
| Resolver.DirStemPanicCases | src/package.rs:94-101 | where the source panics, the model names a ".." package "." and a name made only of '/' "packages" |
| Resolver.Load | src/package.rs:89-105 | a loaded definition is named by the stem of its directory `packages/<name>` and keeps everything else the file holds |
| Resolver.ReachBelow | src/resolver.rs:13-27 | every loadable reachable name ranks below the bound, which is what makes the recursion end |
| Resolver.ResolveDepsOk | src/resolver.rs:13-27 | resolution succeeds iff every reachable dot name loads, and a failure names a reachable package that is missing or does not parse |
| Resolver.LoadedMerge | src/resolver.rs:25-26 | merging a sub-result and inserting the loaded package keeps each value the package loaded for its key |
| Resolver.ResolveDepsKeys | src/resolver.rs:10-28 | on success the map gains exactly the reachable dot names, each mapped to the package loaded for it |
| Resolver.ResolveSpec | src/resolver.rs:7-29 | success iff everything reachable loads; then the keys are exactly the reachable dot names with their loaded packages; an error names an unloadable reachable package |
| Resolver.ResolveExcludesRoot | src/resolver.rs:10-28 | a package resolved from an acyclic store is not among its own dependencies |
| Resolver.ReachDirect | src/resolver.rs:13-26 | every direct dot dependency is reached |
| Resolver.ResolveNoDots | src/resolver.rs:14-17 | a list without dot dependencies resolves to the empty map |
| Resolver.ReachClosed | src/resolver.rs:21-25 | what a reachable package depends on through dot is reachable too |
| Resolver.ResolvedRepoPlannable | src/resolver.rs:7-29 | a successful resolution is a repository the planner accepts: it holds the root's and every member's dot dependencies |
| Resolver.ResolveStep | src/resolver.rs:13-27 | one dependency of the loop: skipped, an error for a missing or unparsable file, or merged and inserted |
| Resolver.ResolveDependencies | src/resolver.rs:7-29 | the loop with its recursion computes `Resolve` |
| Generation.CommentFor | src/action/generation.rs:34-63 | every group comment is a shell comment starting with "# " |
| Generation.PathJoin | src/action/generation.rs:64 | an absolute src replaces the origin, an empty origin adds nothing, and the result ends with src |
| Generation.AddComment | src/action/generation.rs:8-14 | the comment is pushed only when it differs from the last one, and it becomes the last one |
| Generation.GenerateStep | src/action/generation.rs:22-80 | one action adds its comment if new, then its command line |
| Generation.GenerateShellScript | src/action/generation.rs:16-82 | the loop computes `Generate` |
| Generation.GenerateFromBlocks | src/action/generation.rs:20-80 | threading the last comment is the same as comparing each action's comment with its predecessor's |
| Generation.GenerateByPosition | src/action/generation.rs:16-82 | the script is the header, then per action a comment exactly where a new group opens, then its line |
| Generation.GenerateFromLength | src/action/generation.rs:22-80 | each action adds one line and at most one comment; from the initial "" the first comment is always pushed |
| Generation.GenerateShape | src/action/generation.rs:20-82 | the script starts with "# Shell Generation" and has between 1 + n and 1 + 2n lines; line 2 is the first comment |
| Generation.GenerateOneGroup | src/action/generation.rs:8-14 | actions sharing one comment get it once, followed by their lines in order |
| Generation.GroupLines | src/action/generation.rs:8-14 | under an unchanged comment only command lines are pushed |
| Generation.GenerateAllGroups | src/action/generation.rs:8-14 | when every action opens a group, every action brings its comment |
| Generation.PackageLineTemplate | src/action/generation.rs:39-44 | a template `<prefix><package>` runs the prefix followed by the package name |
| Generation.FileLines | src/action/generation.rs:62-77 | "ln -sf dest origin/src", "cp origin/src dest" and "rm dest" |
| Execution.Tokens | src/action/execution.rs:14-18 | a template always has a first word |
| Execution.PmCommandProgram | src/action/execution.rs:14-19 | the program is the trimmed template up to its first space |
| Execution.ArgumentsAppend | src/action/execution.rs:20-32 | the arguments of consecutive words are concatenated in order |
| Execution.ArgumentsOne | src/action/execution.rs:20-32 | a single word gives its own arguments |
| Execution.ExpandCases | src/action/execution.rs:21-31 | a blank word gives nothing, a word other than the placeholder gives itself trimmed, and the placeholder gives the package string split at spaces |
| Execution.ExpandSpaceFree | src/action/execution.rs:21-31 | a space-free word gives space-free arguments |
| Execution.ArgumentsSpaceFree | src/action/execution.rs:20-32 | the arguments of space-free words are space-free |
| Execution.PmCommandSpaceFree | src/action/execution.rs:13-32 | no argument of an invocation holds a space |
| Execution.PlaceholderExpands | src/action/execution.rs:29-31 | the placeholder with a batched "a b" gives one argument per name, in order |
| Execution.MarkerExpands | src/action/execution.rs:29-31 | the same for any trimmed marker |
| Execution.TemplateTokens | src/action/execution.rs:14-18 | "program word <package>" has exactly those three words |
| Execution.TemplateInvocation | src/action/execution.rs:13-32 | "program word <package>" with a batched name starts the program with the word followed by every name |
| Execution.WordThenMarker | src/action/execution.rs:20-31 | a plain word then the marker gives the word, then the names |
| Execution.ExpandInto | src/action/execution.rs:21-31 | one word's arguments are appended, in order |
| Execution.BuildPmCommand | src/action/execution.rs:13-32 | the loop over the words after the first computes `PmCommand` |
| Execution.LongPackageName | src/action/execution.rs:104-108 | the logged name of an "os" package is its bare name |
| Execution.LongNameParses | src/action/execution.rs:104-108 | the logged name parses back to the action's source and name |
| Execution.ScriptPackage | src/action/execution.rs:58 | `PACKAGE` is the origin up to its first ':' |
| Execution.ScriptTagSuffix | src/action/execution.rs:131-135 | the script tag is the upper-cased ':'-free suffix of the origin |
| Execution.OriginSegments | src/action/execution.rs:131-135 | for "package:phase" the script sees the package and is logged under the phase |
| Commands.ParseAll | src/commands/remove.rs:25-31 | one dependency per argument, each as `from_str` reads it |
| Commands.RemoveMatchingMembers | src/commands/remove.rs:32-36 | a dependency survives iff it was there and equals no parsed argument |
| Commands.RemoveMatchingAppend | src/commands/remove.rs:32-36 | the filter works entry by entry, keeping order |
| Commands.RemoveMatchingLength | src/commands/remove.rs:24-42 | the list never grows, and keeps its length iff nothing matches |
| Commands.RemoveMatchingIdempotent | src/commands/remove.rs:32-36 | filtering again changes nothing |
| Commands.BareNameRemovesDefaultOnly | src/commands/remove.rs:25-36 | a bare name removes the "os" dependency of that name and keeps a dot dependency of the same name |
| Commands.HostDefinition.RemoveDependencies | src/commands/remove.rs:22-42 | the new definition is the old with matching dependencies filtered out, and the count is old length minus new |
| Commands.HostDefinition.AddDependencies | src/commands/add.rs:21-36 | the parsed names are appended after the old list and the count is the number of names |
| Commands.AddedDependencies | src/commands/add.rs:23-30 | the old list is an unchanged prefix, one entry per name in argument order, bare names with source "os", no deduplication |
| Commands.SingleNameMessageLines | src/commands/add.rs:63-66 | a message about one name is one line: "Add name to host" or "Remove name from host" |
| Commands.BulletLines | src/commands/remove.rs:73-77 | the "\n- "-joined names read back line by line as one bullet per name |
| Commands.CommitMessageLines | src/commands/remove.rs:69-78 | with several names, both messages are a header line followed by one bullet line per name |
| Strings.JoinSplit | src/action/mod.rs:56 | splitting at a character and joining with it gives the string back |
| Strings.SplitJoin | src/action/execution.rs:29 | names free of the separator, joined and split again, come back unchanged |
| Strings.TrimEmpty | src/action/execution.rs:21-22 | a word is blank after trimming iff it is all whitespace |
| Strings.ToUpper | src/action/execution.rs:135 | each character is upper-cased on its own, and the length is kept |

## Left out

- Reading and writing files, YAML (de)serialisation, git, the CLI and process execution are not modelled. The package store and the previous lockfile are parameters, and `execute`'s effects are reduced to the strings it builds.
- `execute_script`, `handle_output` and the link, copy and remove effects of `execute` (`src/action/execution.rs:40-80`, `150-231`) run processes and touch the filesystem.
- `HostConfiguration::load`, `PackageDefinition::from_path` and the lockfile read (`src/lockfile.rs:73-79`) are I/O; their results are the model's inputs.
- `src/host/config.rs` is modelled as data shapes only; it has no logic.
- The composition resolve → plan → diff → compact of `src/commands/install.rs` is not a function here. `Resolver.ResolvedRepoPlannable` proves that the resolver's output meets the planner's precondition.
- `src/action.rs` and `src/generation.rs` are older versions superseded by `src/action/`, and are not part of this model.
- Resolver.Load: a name whose last component is "..", or one made only of '/', makes the source panic (`file_stem` or `parent` gives nothing). The model still names such a package: ".." is named "." (the file stem cuts before its last '.'), and a name made only of '/' is named "packages"; `Resolver.DirStemPanicCases` proves both.
- Resolver.ResolveDependencies: a missing package file is the error `MissingPackage` here, while the source panics through `expect` (`src/package.rs:90-93`); a file that does not parse is `ParseError`.
- Resolver.ResolveDependencies: the source has no cycle detection and recurses without end on a cycle. The model requires an acyclic store, given as a ghost `rank` below which each package's dot dependencies lie.
- Planner.TransformPackageToActions: every dot dependency must name a repository package (`DotClosed`, `DotDepsIn`), since the source unwraps the lookup.
- Compactor.CompactMergeableActions: every package source must be configured and non-empty, since the source unwraps the lookup and uses the empty source for "no pending run".
- Generation.GenerateShellScript: every package source must be configured, since the source `expect`s the lookup. The `Result` the source wraps the lines in is always `Ok` and is dropped.
- Generation.PathJoin: only Unix paths are modelled: '/' separates, and a leading '/' makes `src` absolute.
- Execution.ScriptTag: upper-casing is ASCII only; Rust's `to_uppercase` also maps other letters and may change the length.
- Strings.ToUpper: ASCII letters only, as for `Execution.ScriptTag`.
- Execution.BuildPmCommand: the source panics when a manager's template is empty after trimming (`args[0]` exists but the process cannot start); the model returns an invocation of the empty program.
- Planner.PlanPackage: actions carry the empty origin, since the planner of the source records none.
