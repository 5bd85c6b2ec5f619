# tf-mod-watcher change propagation, in Dafny

tf-mod-watcher reports which Terraform root modules are affected by a set of
changed files. A module directory is affected when one of its own files
changed, or when a local child module that one of its `module` blocks
references is affected. This project models that engine and the child-module
discovery it relies on, and proves what they compute.

The model has these parts:

- `Paths` (paths.dfy): Go's `filepath.Clean`, `Join`, `Abs` and `Rel`, and
  `strings.HasPrefix`/`TrimPrefix`. Paths are modelled lexically: a path is
  split into elements, normalised, and joined again.
- `FileSystem` (filesystem.dfy): an immutable map from clean absolute paths to
  nodes, plus the working directory, which may be unavailable. A directory
  node holds its listing, or nothing when reading it fails. A file node holds
  the evaluated `source` attribute of each `module` block, or nothing when
  the file does not parse.
- `Terraform` (terraform.dfy): `findTerraformFiles`, the block loop of
  `extractModuleSources`, `resolveModulePath`, `FindChildModules` and
  `GetModuleInfo`.
- `Analyzer` (analyzer.dfy): the analyzer state (changed files and verdict
  cache), the cache accessors, `hasDirectFileChanges` and the memoised
  `IsModuleUpdated`. The cache is threaded through the calls as a value.
  `IsModuleUpdated` is compared with a cache-free reference verdict and
  with reachability of a directly changed module.
- `Relative` (relative.dfy): `ConvertToRelativePath`, both as written and
  corrected (see Findings). The report uses the version as written.
- `Roots` (roots.dfy): `AnalyzeRootModules`, as a method with a loop.

The source recursion has no cycle check. Termination is proved under an
explicit acyclicity precondition `Ranked`: a ghost rank on existing
directories that every referenced child sits below. This rules out every
cycle in the filesystem, including some on which the source terminates (see
Left out).

## Model

| member | source | states |
|---|---|---|
| Analyzer.NewAnalyzer | internal/analyzer/analyzer.go:21-36 | Succeeds exactly when every changed path has an absolute form; otherwise fails with the working-directory error. The stored set is exactly the absolute forms of the given paths, in both directions. The cache starts empty. |
| Analyzer.ClearCache | internal/analyzer/analyzer.go:189-191 | The cache is empty afterwards and the changed-file set is untouched. |
| Analyzer.CacheKeyIsAbs | internal/analyzer/analyzer.go:38-62 | The key the cache accessors compute (clean, make absolute when relative, clean) is the directory's clean absolute path, however it is spelled. |
| Analyzer.GetCached | internal/analyzer/analyzer.go:38-49 | Fails exactly when no absolute key can be formed. Otherwise reports a hit exactly when the key is cached, and a hit carries the stored verdict. |
| Analyzer.SetCached | internal/analyzer/analyzer.go:51-62 | Fails exactly when no absolute key can be formed. Otherwise the only change is the verdict stored under the key. |
| Analyzer.ScanEntries | internal/analyzer/analyzer.go:159-180 | Answers true exactly when some non-directory entry's absolute path is a member of the changed set; subdirectories never count. An error is possible only for an entry whose absolute path cannot be formed, and it is the working-directory error wrapped as an absolute-path failure. |
| Analyzer.HasDirectFileChanges | internal/analyzer/analyzer.go:150-181 | A listing failure is the read error wrapped as a directory-read failure. Otherwise it answers true exactly when a non-directory entry of the listing is a changed file. It never fails once the listing succeeds and the directory has an absolute form. |
| Analyzer.DirectSameKey | internal/analyzer/analyzer.go:150-181 | The direct-change answer depends only on the directory's absolute key, not on how the directory is spelled. |
| Analyzer.IsModuleUpdated | internal/analyzer/analyzer.go:66-147 | Fails when the directory has no absolute form. Every success leaves the changed set alone and records the returned verdict under the directory's clean absolute key. It never drops or changes an existing cache entry, and it adds entries only for modules ranked at or below this one. |
| Analyzer.CacheHit | internal/analyzer/analyzer.go:68-78 | A cached directory returns the stored verdict and leaves the analyzer unchanged. |
| Analyzer.MissOutcomes | internal/analyzer/analyzer.go:82-119 | On a cache miss there are four cases. A missing directory gives false, cached. An existing directory that cannot be listed gives the read error, wrapped by `hasDirectFileChanges` and again by `IsModuleUpdated`, and caches nothing. A direct change gives true, cached. A module whose children cannot be found gives false, cached, with no error (fail-open). |
| Analyzer.AnyChildUpdated | internal/analyzer/analyzer.go:124-138 | The child loop keeps the changed set, never drops or changes cache entries, and adds entries only for modules below the parent. |
| Analyzer.AnyChildAppend | internal/analyzer/analyzer.go:124-138 | Splitting the child list: the second part is visited only when no child of the first part is affected or fails, and then starts from the cache the first part left. Children after the first affected one are never visited. |
| Analyzer.AnyVerdictFalse | internal/analyzer/analyzer.go:124-146 | The children's verdict is false exactly when every child's verdict is false. |
| Analyzer.AnyVerdictTrue | internal/analyzer/analyzer.go:124-137 | A true verdict over the children has a first true child, and every child before it is false. |
| Analyzer.AnyVerdictErr | internal/analyzer/analyzer.go:125-128 | An error over the children comes from a first failing child, whose error it wraps; every child before it is false. |
| Analyzer.IsModuleUpdatedSound | internal/analyzer/analyzer.go:66-147 | With a sound cache, every result matches the cache-free reference verdict: a success carries its value, and a failure carries the same error. The cache stays sound: each entry holds its key's reference verdict. |
| Analyzer.CacheTransparent | internal/analyzer/analyzer.go:66-147 | Any two sound caches give the same success or failure and the same verdict, so memoisation is invisible. |
| Analyzer.RepeatIsCacheHit | internal/analyzer/analyzer.go:68-78 | Asking again right after an answer returns the identical answer and analyzer. |
| Analyzer.VerdictReachesChange | internal/analyzer/analyzer.go:93-138 | An affected module has a chain of child references, through existing modules, that ends in a directly changed module. |
| Analyzer.ReachableChangeVerdict | internal/analyzer/analyzer.go:93-138 | A module with such a chain is affected, unless its verdict is an error. |
| Analyzer.UpdatedIffChangePath | internal/analyzer/analyzer.go:66-147 | With a sound cache, a successful answer is true exactly when a chain of child references leads from the directory to a directly changed module. |
| Terraform.TfPaths | internal/terraform/parser.go:58-69 | The result is exactly the `.tf` non-directory entries joined onto the directory, in both directions, and it is no longer than the listing. |
| Terraform.TfPathsAppend | internal/terraform/parser.go:59-67 | Listing order is kept: the files of a concatenated listing are the files of each part, concatenated. |
| Terraform.FindTerraformFiles | internal/terraform/parser.go:52-70 | Fails, with the read error wrapped as a directory-read failure, exactly when the directory cannot be read. Otherwise it returns the `.tf` files of that one listing, non-recursively. |
| Terraform.StringSources | internal/terraform/parser.go:97-118 | A source is kept exactly when some block's `source` evaluates to that string. Blocks with bad attributes, no source, a failed evaluation or a non-string value are skipped. All-string blocks lose nothing. |
| Terraform.StringSourcesAppend | internal/terraform/parser.go:98-116 | Block order is kept across a split of the blocks. |
| Terraform.ExtractModuleSources | internal/terraform/parser.go:73-119 | Fails, with the parse error, exactly when the path is not a file that parses. Skipped blocks never cause an error. |
| Terraform.ResolveModulePathUps | internal/terraform/parser.go:122-130 | A source made of n parent steps and then plain elements climbs n elements from the module directory and descends again. For example, `../sibling` from `/x/parent` names `/x/sibling`, and `../../../modules/vpc` from `/r/e/p/app` names `/r/modules/vpc`. |
| Terraform.ResolveSources | internal/terraform/parser.go:30-45 | A path is a child exactly when it is the resolved form of a source whose joined path exists and which is not absolute. It is no longer than the sources, and equally long when every source is kept. |
| Terraform.ResolveSourcesAppend | internal/terraform/parser.go:31-45 | Declaration order is kept across a split of the sources. |
| Terraform.ChildrenOfFiles | internal/terraform/parser.go:22-48 | Fails, with the wrapped parse error, exactly when some file fails to parse. |
| Terraform.FindChildModules | internal/terraform/parser.go:15-49 | Fails exactly when the directory cannot be read or some `.tf` file fails to parse. There is no partial list. An unreadable directory gives the read error wrapped by `findTerraformFiles` and again by `FindChildModules`. Otherwise the error is the wrapped parse error. |
| Terraform.FindChildModulesFlat | internal/terraform/parser.go:23-48 | The children are the kept sources of all files, resolved, in file order and then declaration order, with duplicates. There are at most as many as there are sources. |
| Terraform.FindChildModulesSameKey | internal/terraform/parser.go:15-49 | Two spellings of one directory fail together. Otherwise their children are, one by one, spellings of the same directories. |
| Terraform.GetModuleInfo | internal/terraform/parser.go:133-144 | Fails, with the wrapped read error, exactly when the directory cannot be read. It reports the path unchanged, `fileCount` equal to the number of files, and exactly the `.tf` files of the listing. |
| Relative.ConvertToRelativePathAsWritten | internal/analyzer/analyzer.go:194-219 | A non-absolute base is an error, checked first; then a non-absolute path is an error; both absolute always succeeds. |
| Relative.AsWrittenSiblingPrefix | internal/analyzer/analyzer.go:204-218 | As written, for a sibling `/xz` of base `/x` the answer is `z`. Joined back onto the base, `z` names `/x/z`, a different path. |
| Relative.AsWrittenSiblingExample | internal/analyzer/analyzer.go:204-218 | Base `/a`, path `/ab`: as written the answer is `b`, and `/a` joined with `b` is not `/ab`. |
| Relative.ConvertToRelativePath | internal/analyzer/analyzer.go:194-219 | Has the same error cases. A success joined back onto the clean base gives the clean path, and it is empty exactly when the path is the base. |
| Relative.ConvertDescendant | internal/analyzer/analyzer.go:204-218 | A path below the base gives its elements below the base, both as written and corrected, and also when the base is `/`. For example, `/x/a/b/c` from `/x` gives `a/b/c`. |
| Relative.ConvertFromRoot | internal/analyzer/analyzer.go:204-218 | From the base `/`, both versions give the path without its leading slash. |
| Relative.ConvertSibling | internal/analyzer/analyzer.go:204-218 | Corrected, a sibling of the base gives one parent step and its name, also at depth one; for example, `/x/other` from `/x/project` gives `../other`. As written the same holds unless the sibling's name starts with the base's last element. In that case the answer is the rest of the name: `/x/project` from `/x/pro` gives `ject`. |
| Relative.CorrectedDiffersOnlyOnSiblingPrefix | internal/analyzer/analyzer.go:204-218 | The correction changes the answer only when the base is a string prefix of the path that does not end at an element boundary. The root base `/` ends at one, so from `/` nothing changes. |
| Relative.RootBaseAgrees | internal/analyzer/analyzer.go:204-218 | From the base `/`, both versions give the same answer for every absolute path. |
| Relative.AsWrittenRoundTripOffSiblings | internal/analyzer/analyzer.go:204-218 | Away from those pairs, the answer as written already joins back onto the base to give the path. |
| Relative.AsWrittenOnSiblingPrefix | internal/analyzer/analyzer.go:204-218 | On those pairs, the answer as written is the path with the base's text cut off. It is never empty, and the base followed by it spells the path. |
| Relative.AsWrittenReportNames | internal/analyzer/analyzer.go:204-218 | For two clean absolute paths the answer as written always succeeds. Joined onto the base it names the path, except on a sibling-prefix pair, where the base's text followed by it spells the path. |
| Paths.RelRoundTrip | internal/analyzer/analyzer.go:207-211 | For two absolute paths, Rel's answer joined onto the base gives the clean target. |
| Roots.RelOf | internal/analyzer/analyzer.go:236-252 | A report line is the answer as written for the absolute base and root. It fails exactly when the base or the root has no absolute form. Otherwise the line, joined onto the absolute base, names the absolute root. The exception is a root whose text starts with the base's text but which does not lie under the base, such as `/x/project` or `/x/project/sub` from `/x/pro`. There, the base followed by the line spells the root. From the base `/` there is no exception. |
| Roots.AnalyzeRootModules | internal/analyzer/analyzer.go:222-257 | If the analyzer cannot be built, that error is returned. Otherwise the result is the reference report: the first failing root fails the whole run with no list, and otherwise there is one line per affected root, in order, formed by the conversion as written. |
| Roots.UpdatedRootsOk | internal/analyzer/analyzer.go:222-257 | The report succeeds exactly when every root has a verdict and, if any root is affected, the base path has an absolute form. |
| Roots.UpdatedRootsLines | internal/analyzer/analyzer.go:229-256 | A successful report has exactly as many lines as there are affected roots. Each line names the matching affected root, in input order: joined onto the absolute base it gives the root, or, on a root whose text starts with the base's text without lying under the base, the base followed by the line spells it. |

## Left out

- The filesystem is a fixed map, and `os.Stat`, `os.ReadDir` and the working directory behind `filepath.Abs` are inputs. An unavailable working directory stands for `os.Getwd` failing. A `Stat` failure other than "does not exist" (for example, permission denied) is not modelled: a path either exists or does not.
- HCL parsing (`ParseHCLFile`, `PartialContent`, `JustAttributes`, `Expr.Value`) belongs to a foreign library. A file is either unparsable, or the list of what each `module` block's `source` evaluates to. A failure of `PartialContent` is merged with a failure of `ParseHCLFile`.
- Error values carry no message text and no paths. Their nesting follows the source's `%w` wrapping. The `%s` errors of `extractModuleSources` break the chain in the source, and here they are a fresh parse error.
- Logging has no effect on results and is left out.
- The git diff, the CLI and `main` are not part of this model; the changed-file set is an input.
- Rel's error branch is left out: the analyzer only calls Rel with two absolute paths, where it cannot fail.
- `GetAnalysisCache` returns the cache itself. In Go that is an alias a caller could mutate; here it is a copy. It has no contract, so it has no row in the Model table.
- Directory listing order is taken as given. Go's `os.ReadDir` sorts by name; the model keeps whatever order the listing holds.
- Termination is proved only for acyclic module graphs (`Ranked`). The source recurses without bound only on a cycle it reaches through modules with no direct change. That behaviour is not modelled.
- Analyzer.IsModuleUpdated: `Ranked` is global. It also excludes filesystems whose cycles the source survives: a cycle no queried root reaches, or one cut short by a direct change, because the source returns before reading the children of a directly changed module.
- Analyzer.IsModuleUpdatedSound: same `Ranked` precondition, with the same cases excluded.
- Analyzer.UpdatedIffChangePath: same `Ranked` precondition, with the same cases excluded.
- Roots.AnalyzeRootModules: same `Ranked` precondition, with the same cases excluded.
- `Paths.Clean` and the other path functions handle only `/` as the separator and have no volume names, matching Unix `filepath`.
- Analyzer.IsModuleUpdated: a failure returns an error and no analyzer. The source writes the cache in place, so verdicts recorded before a child fails stay in the cache: those of earlier children and those inside the failing child's subtree. The model drops them. `AnalyzeRootModules` returns on the first error and never reads the cache again, so its result is the same.
- Analyzer.AnyChildUpdated: on a failing child it likewise returns no analyzer, so the entries the earlier children wrote are not kept.
- Analyzer.AnyChildUpdated: its own contract speaks only of the cache. What the loop answers is stated by `Analyzer.AnyChildAppend` and `Analyzer.IsModuleUpdatedSound`.

## Findings

| source | as written | input that shows it | evidently intended | confidence | as-written member | corrected member |
|---|---|---|---|---|---|---|
| internal/analyzer/analyzer.go:204-218 | `strings.HasPrefix(absolutePath, basePath)` decides that the path lies under the base, then trims the base and one separator | base `/a`, path `/ab`: the answer is `b`, which names `/a/b` relative to the base | the base counts as a prefix only at an element boundary (`/ab` from `/a` is `../ab`) | not executed | Relative.AsWrittenSiblingExample, Relative.AsWrittenSiblingPrefix | Relative.ConvertToRelativePath |

`Roots.AnalyzeRootModules` follows the source and forms its report lines with `Relative.ConvertToRelativePathAsWritten`. `Relative.CorrectedDiffersOnlyOnSiblingPrefix` shows that the corrected conversion would change only the lines of sibling-prefix roots.
