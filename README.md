# cursor-tdd-agent in Dafny

This project is a Dafny model of the core of `cursor-tdd-agent`. The tool does two things:

- It installs Cursor rule templates and a "memory bank" of Markdown templates into a project.
- It assesses a git range. It categorises the changed paths into six buckets and renders a Markdown report. It either prints the report or appends it to `memory-bank/assessment.md`. Changed spec files are also indexed in `memory-bank/specSources.md`.

The repository has two copies of this logic. They are modelled once, parametrised by `Categorizer.Variant`:

- `Library` is `lib/agent.js`. It resolves the base of the range with a three-tier fallback and ignores a failed `git fetch`.
- `Cli` is `index.js`. It uses the references as given, and a failed fetch aborts it. Its config pattern also matches `go.mod`. It also parses the `assess --diff base..head` option.

Modules, in dependency order:

- `Wrappers`: `Option` and `Result`.
- `Strings`: the string primitives the source uses:
  - `split` and `join`;
  - `startsWith`;
  - the shapes of its regular expressions, written out as predicates:
    - a literal infix;
    - an `$`-anchored suffix;
    - a `(^|\/)` segment;
    - the ASCII case folding of the `i` flag.
- `Categorizer`:
  - `filter` and the name-only line list;
  - the six bucket predicates and the bucket set.
- `Report`:
  - `formatList`;
  - the report text;
  - the block appended to the spec index.
- `Revisions`:
  - the default references;
  - the `--diff` split;
  - `resolveBase`.
- `Assess`: `assessDiff` up to the report. The version-control service is an oracle value (`Git`) that gives:
  - whether the fetch succeeds;
  - which references verify;
  - what each diff view returns.
- `FileSystem`: the working directory as a `Snapshot`, that is, file contents by path plus the directories created explicitly. It also holds `pathExists`, `ensureDir`, `appendFile`, `ensureFile` and `path.dirname`.
- `Installer`: `copyDirectory`, `ensureMemoryCoreFiles` and `init`, as functions from one snapshot to the next, with their properties.
- `Persistence`: the write mode of `assessDiff` as a snapshot function, with its properties.
- `Workspace`: the class `Workspace`. Its `files` and `dirs` fields change in place. Its methods follow the source step by step; the `ensureMemoryCoreFiles` loop is a `while` loop with an invariant. Each method is proved to end in the state that the `Installer` or `Persistence` function describes.
- `Scenarios`: the examples of the unit tests, stated about the model.

The assessment separator `\n\n---\n` is added whenever `assessment.md` exists, even when it is empty (lib/agent.js:153-155). `Scenarios.EmptyAssessmentGetsSeparator` states this.

## Model

| member | source | states |
|---|---|---|
| Strings.Contains | lib/agent.js:109 | an unanchored literal pattern matches exactly when it occurs at some index |
| Strings.HasSegment | lib/agent.js:110 | `(^\|/)seg` matches exactly when `seg` occurs at the start or right after a `/` |
| Strings.FindFrom | lib/agent.js:103 | the first occurrence at or after `from`: it occurs there, and nowhere in between; `None` only when it occurs nowhere after `from` |
| Strings.SplitJoin | lib/agent.js:103 | joining the parts of `split(sep)` with `sep` gives back the text |
| Strings.SplitPartsFree | lib/agent.js:103 | no part of a split contains the separator |
| Strings.JoinSplit | lib/agent.js:122-147 | splitting a `\n`-join of line-free parts gives back exactly those parts |
| Strings.FirstOccurrence | lib/agent.js:103 | the scan reports the leftmost occurrence |
| Categorizer.Filter | lib/agent.js:106-119 | `filter` keeps exactly the elements satisfying the predicate, and never more elements than the input has |
| Categorizer.HitsAreTheSatisfyingPositions | lib/agent.js:106-119 | the kept positions are increasing and are exactly the positions whose element satisfies the predicate |
| Categorizer.FilterIsOrderedSubsequence | lib/agent.js:105-120 | every bucket is the subsequence of the input at the satisfying positions, in input order |
| Categorizer.ChangedFilesAreLines | lib/agent.js:102-103 | `split('\n').filter(Boolean)` yields the non-empty lines; no path holds a line break |
| Categorizer.CliConfigAddsGoMod | index.js:89-93 | the command-line config pattern accepts exactly what the library's accepts, plus any path containing `go.mod` in any case |
| Categorizer.VariantsDifferOnlyInConfig | index.js:83-98 | the two copies bucket every list identically except for config |
| Report.JoinAppend | lib/agent.js:122-147 | joining two non-empty line lists puts exactly one separator between them |
| Report.FormatListIsJoin | lib/agent.js:66-70 | a rendered list is its title line and bullets joined by `\n`, each a single line |
| Report.FormatListLines | lib/agent.js:66-70 | cut at line breaks, a rendered list gives back the title line and one `  - x` per item in order, or the `: none` line; a missing list renders like an empty one |
| Report.ReportLayout | lib/agent.js:122-147 | the report starts with `# Change Delta <range>` and its Categorization heading is followed by the six lists and then the focus areas |
| Report.CategorizationLines | lib/agent.js:135-141 | the Categorization section reads back as the six lists in the fixed order Source, Tests, Contracts/Schemas, Config/CI, Migrations, External Specs |
| Report.ConcatSingleLine | lib/agent.js:135-141 | concatenating single-line sections keeps every line single |
| Report.JoinConcat | lib/agent.js:135-141 | joining the joined sections equals joining all their lines at once |
| Report.EmptyChangeRendersNone | lib/agent.js:136-141 | with no changed files the six category lines are the six `: none` lines, in order |
| Report.SpecHeaderJoin | lib/agent.js:159-161 | the spec-index header is `\n` for a non-empty index and the `# Spec Sources` title otherwise |
| Report.SpecBulletsSingleLine | lib/agent.js:165 | single-line spec paths give single-line bullets |
| Report.SpecIndexBlockIsJoin | lib/agent.js:162-167 | the appended block is its header, heading, bullets and final empty line joined by `\n` |
| Report.SpecBlockLinesSingle | lib/agent.js:162-167 | every line of the block is a single line |
| Report.SpecIndexBlockLines | lib/agent.js:162-167 | cut at line breaks, the block is the header lines, `### Added/Changed (from diff)`, one `- p` per spec path in order, and an empty last line |
| Revisions.OrDefault | lib/agent.js:74-75 | `x \|\| d` with a non-empty default never yields an empty reference, so git is never handed an empty base or head |
| Revisions.ResolveBase | lib/agent.js:83-97 | the base is the requested one if it verifies, else `head~1` if that verifies, else the empty tree; it is always verified or the empty tree |
| Revisions.ParseRangeOfPair | index.js:205-206 | `--diff a..b` with plain references splits back into base `a` and head `b` |
| Revisions.ParseRangeWithoutSeparator | index.js:205-206 | a range without `..` is all base, with the head left undefined |
| Revisions.ParseRangeDefault | index.js:205 | a missing or empty `--diff` means base `origin/main` and head `HEAD` |
| Revisions.NoDotNoDoubleDot | index.js:206 | a reference without dots holds no `..` |
| Assess.AssessSucceedsExactlyWhen | lib/agent.js:77-102 | a run succeeds exactly when the fetch is tolerated (always by the library, only on success by the command-line copy) and all three diff views answer for the one range `base..head` |
| Assess.AssessUsesOneRange | lib/agent.js:97-147 | a successful run reports on that range: the report is titled `# Change Delta <range>` and the buckets are those of the name-only view's non-empty lines |
| Assess.LibraryIgnoresFetchFailure | lib/agent.js:77-81 | the library's result does not depend on the fetch |
| Assess.CliFetchFailureIsFatal | index.js:77 | the command-line copy fails on a failed fetch |
| Assess.CliHasNoFallback | index.js:75-80 | the command-line range is the given references with their defaults, whatever verifies |
| Assess.AssessCommandRange | index.js:203-206 | `assess --diff a..b` reports on exactly `a..b` |
| Assess.LibraryFallbackRange | lib/agent.js:83-99 | with `origin/main` unknown, the library's range is `HEAD~1..HEAD` if `HEAD~1` verifies and starts at the empty tree otherwise |
| FileSystem.LastSlashBefore | lib/agent.js:25 | the index of the last `/` before the bound: it holds a `/` and no later index before the bound does; `None` exactly when no `/` lies before the bound |
| FileSystem.Dirname | lib/agent.js:25 | `path.dirname` is the part before the last `/` when that `/` is not the first character, `.` for a path without `/`, and otherwise `/` or a proper prefix |
| FileSystem.DirnameOfJoin | lib/agent.js:57-58 | `path.dirname` (as used at lib/agent.js:25) undoes `path.join` of a relative directory and a plain file name, so the parent of a core-file destination is the memory-bank directory |
| FileSystem.ExistsIgnoresUnrelated | lib/agent.js:26 | adding paths that are neither `p` nor below it leaves `pathExists(p)` unchanged |
| Installer.ParentKeepsExistence | lib/agent.js:25-26 | ensuring the parent directory does not make the destination, or anything under it, exist |
| Installer.CopyDirectoryShape | lib/agent.js:24-38 | `created` is false exactly when the destination existed and `force` was off; the files gain the merged or overwriting copy; the parent and, when created, the destination become directories |
| Installer.CopyDirectoryWrites | lib/agent.js:27-37 | each template file lands at its destination when copied fully, or when merging and nothing is at that path |
| Installer.CopyDirectoryMergeSkips | lib/agent.js:28-33 | when merging, a destination path that already exists is left as it was |
| Installer.CopyDirectoryFrame | lib/agent.js:24-38 | no path outside the parent, the destination and the template files' destinations changes, and no file disappears |
| Installer.CopyWithoutForceKeepsFiles | lib/agent.js:27-35 | without `force` no existing file is ever rewritten |
| Installer.FreshDestinationIgnoresForce | lib/agent.js:26-37 | a destination that does not exist is copied identically with or without `force` |
| Installer.CoreWriteIsLocal | lib/agent.js:56-63 | writing one core file does not change whether another exists |
| Installer.ExistsMonotone | lib/agent.js:59 | when files and directories are only added, what existed still exists |
| Installer.StepKeepsNeeds | lib/agent.js:59-62 | copying one core file leaves whether the later ones need a copy |
| Installer.CoreFoldFrame | lib/agent.js:56-63 | the loop keeps the directories, removes no file and touches only the names' destinations |
| Installer.CoreFoldOutcome | lib/agent.js:56-63 | the loop finishes exactly when every name needing a copy has a template |
| Installer.CoreFoldWrites | lib/agent.js:59-62 | when the loop finishes, every name that needed a copy holds its template |
| Installer.CoreFoldKeeps | lib/agent.js:59-62 | a name that needed no copy keeps what it had |
| Installer.CoreFilesWellFormed | lib/agent.js:42-55 | the twelve core file names are distinct and contain no `/` |
| Installer.MemoryDirKeepsNeeds | lib/agent.js:41 | ensuring `memory-bank` does not change which core files need a copy |
| Installer.EnsureMemoryCoreFilesOutcome | lib/agent.js:40-64 | `ensureMemoryCoreFiles` succeeds exactly when every core file it must copy has a template |
| Installer.EnsureMemoryCoreFilesWrites | lib/agent.js:56-63 | after success, each core file that was absent, or every one under `force`, holds its template |
| Installer.EnsureMemoryCoreFilesKeeps | lib/agent.js:59-62 | without `force`, a core file that existed is left as it was |
| Installer.EnsureMemoryCoreFilesComplete | lib/agent.js:40-64 | after success all twelve core files exist |
| Installer.EnsureMemoryCoreFilesFrame | lib/agent.js:40-64 | only the memory-bank directory and the core files' paths change, and no file disappears |
| Installer.RulesAvoidMemoryBank | lib/agent.js:180-182 | installing the rules leaves every path in `memory-bank` as it was, including whether it exists |
| Installer.SkipMemoryLeavesMemoryBank | lib/agent.js:185-191 | `init` with `skipMemory` succeeds and leaves the memory bank untouched; it never creates it |
| Installer.InitOutcome | lib/agent.js:176-201 | `init` without `skipMemory` succeeds exactly when every core file that was absent, or every one under `force`, has a template |
| Installer.RulesSurviveMemoryFailure | lib/agent.js:180-200 | the rules are installed first, and a memory-bank failure does not undo them |
| Persistence.PathsDiffer | lib/agent.js:151-152 | `assessment.md` and `specSources.md` are different paths inside `memory-bank` |
| Persistence.MemoryDirKeepsAssessment | lib/agent.js:150-153 | ensuring `memory-bank` does not make `assessment.md` exist |
| Persistence.PersistAssessment | lib/agent.js:150-155 | `assessment.md` becomes its old content, then `\n\n---\n` if it existed, then the report |
| Persistence.PersistSpecIndex | lib/agent.js:158-171 | the spec index is untouched without changed specs; otherwise it gains the block listing them |
| Persistence.PersistAppendOnly | lib/agent.js:149-171 | writing only appends: every file keeps its content as a prefix, only the two memory-bank files change, and only `memory-bank` is added as a directory |
| Persistence.PersistTwice | lib/agent.js:153-155 | two writes keep both reports in order with the separator between them |
| Workspace.Workspace.constructor | lib/agent.js:10-11 | the workspace starts in the given snapshot |
| Workspace.Workspace.EnsureDirectory | lib/agent.js:25 | `fs.ensureDir` adds the directory |
| Workspace.Workspace.AppendFile | lib/agent.js:155 | `fs.appendFile` appends to the file, creating it if needed |
| Workspace.Workspace.CopyDirectory | lib/agent.js:24-38 | performs `copyDirectory` in place, ending in `Installer.CopyDirectorySpec`'s result |
| Workspace.Workspace.EnsureMemoryCoreFiles | lib/agent.js:40-64 | the loop over the twelve core files, ending in `Installer.EnsureMemoryCoreFilesSpec`'s result |
| Workspace.Workspace.Init | lib/agent.js:176-201 | rules first, then the memory bank unless skipped, ending in `Installer.InitSpec`'s result |
| Workspace.Workspace.PersistReport | lib/agent.js:149-171 | the write branch, ending in `Persistence.PersistSpec`'s result |
| Workspace.Workspace.AssessDiff | lib/agent.js:72-174 | returns the assessment; persists it only when `write` is set and the run succeeded, and otherwise changes nothing |
| Scenarios.FormatListEmptyExamples | test/unit/utils.test.js:73-75 | `formatList('Source', [])` and `formatList('Tests', null)` render as `none` |
| Scenarios.FormatListTwoItems | test/unit/utils.test.js:79-81 | `formatList('Source', ['file1.js','file2.js'])` renders the two bullets |
| Scenarios.FormatListOneItem | test/unit/utils.test.js:84-86 | `formatList('Config', ['package.json'])` renders one bullet |
| Scenarios.SourceBucket | test/unit/utils.test.js:203 | of the six test paths only `src/components/Button.tsx` is a source path |
| Scenarios.TestsBucket | test/unit/utils.test.js:204 | only `test/Button.test.js` is a test; the dotted infixes and the `tests?/` segment miss the other five |
| Scenarios.ConfigBucket | test/unit/utils.test.js:205 | only `package.json` matches the case-insensitive config alternation |
| Scenarios.MigrationsBucket | test/unit/utils.test.js:206 | only `migrations/001_add_users.sql` has a `migrations?/` segment in any case |
| Scenarios.ContractsBucket | test/unit/utils.test.js:207 | only `openapi/api.yaml` has an `openapi/`, `proto/` or `contracts/` segment |
| Scenarios.SpecsBucket | test/unit/utils.test.js:208 | the specs are `package.json` (by its `.json` suffix) and `test-specs/login.feature`, in input order |
| Scenarios.ComplexCategorization | test/unit/utils.test.js:191-208 | categorising the six paths gives exactly the six buckets the test expects, with `package.json` in both config and specs |
| Scenarios.EmptyAssessmentGetsSeparator | lib/agent.js:153-155 | an existing but empty `assessment.md` still gets the separator |

## Left out

- Logging, `console` output and `process.exit`: `init`'s failure is the `false` flag, and the printed report is the returned `Assessment`.
- The `debug` logger, the `commander` wiring and `program.help()` in index.js are not modelled. Only the `--diff` split of the `assess` action is.
- Git internals: `fetch`, `revparse --verify` and `diff` are answers of the `Git` oracle value. The diff texts are arbitrary strings.
- Workspace.Workspace.CopyDirectory: the copy is per file, with the skip filter evaluated against the state before the copy. fs-extra's own traversal is not modelled: it applies the filter to the source root first, and to directories before their contents.
- Installer.CopyDirectoryWrites: in the merge branch (destination present, no `force`, lib/agent.js:27-34) fs-extra calls the filter on the root pair first; the destination exists, so the filter returns false and the program copies nothing at all, and an existing subdirectory is skipped as a whole. The model instead copies every template file whose own destination path is absent. It promises the per-file merge the filter's comment describes, not the program's effect of copying nothing.
- Filesystem errors are not modelled, except a missing memory-bank template, which makes `ensureMemoryCoreFiles` fail. Not modelled: permissions, a file where a directory is expected, a directory at a core-file path during the copy, and a failing `appendFile`/`ensureFile`.
- FileSystem.Dirname: models `path.dirname` only for paths without a trailing slash, which is how the source uses it.
- Paths are relative strings with `/`. `process.cwd()`, `__dirname` and the template directories are not part of this model; the templates are given as maps.
- Revisions.ParseRange: JavaScript `split` on a range with more than one `..` keeps only the first two parts. This is modelled. Reference syntax is not validated, as in the source.
- Assess.Assess: the awaits run in sequence, and there is no concurrency. A failed diff is a `Failure` rather than a rejected promise.
- `FormatList`'s `null`/`undefined` list is `None`. Other falsy values cannot occur for an array argument.
- Scenarios: only the library's config rule is evaluated on the six test paths, as the test's own helper does. `Categorizer.VariantsDifferOnlyInConfig` covers the command-line rule in general.
