# WebView permission analysis — Dafny model

This project models the two batch drivers of the repository's WebView
permission study:

- `Scripts/PermissionExtractor.py` — for every app not yet analysed, run
  `aapt dump permissions` on the app's `base.apk`, read the package name and
  the `uses-permission` entries out of the dump, write `<package>.json`, and
  mark the app analysed in the results table.
- `Scripts/WebViewPermissionChecker.py` — for every app not yet analysed,
  decompile `base.apk` with apktool, scan the smali files for the four
  WebView permission hooks (the substrings
  `onGeolocationPermissionsShowPrompt`,
  `Landroid/webkit/GeolocationPermissions$Callback;`, `onPermissionRequest`
  and `Landroid/webkit/PermissionRequest;`), copy every matching file into
  the smali store under a hashed name, record in the results table whether
  any hook was found, and always remove the decompile directory.

Both drivers keep a results table (the ledger). `setup_analysis` reads the
pending rows and `complete_analysis` marks one app analysed under a lock;
that is what makes a stopped run resumable.

The model is split into modules that follow the scripts:

| file | module | what it holds |
|---|---|---|
| `text.dfy` | `Text` | Python's `\s` class, `startswith`/`endswith`, `sub in s`, `str.replace(pat, "")` |
| `paths.dfy` | `Paths` | `os.path.join`, the `split("/")[-1]` / `rsplit(".", 1)` / `"_".join` directory-name transform |
| `seqs.dfy` | `Seqs` | `Option`, order-preserving filter, per-row update, "last success" and "collect successes" folds |
| `permission_dump.dfy` | `PermissionDump` | the two anchored patterns as matchers, and the loop over the dump's lines |
| `permission_extractor.dfy` | `PermissionExtraction` | the extractor's ledger, its per-app job and the run, as class `PermissionExtractor` |
| `smali_scan.dfy` | `SmaliScan` | the walk of the decompiled tree and the marker scan loop |
| `smali_store.dfy` | `SmaliStore` | the logical name, hashed file name and body of a stored smali copy, and the copy loop |
| `webview_checker.dfy` | `WebViewChecking` | the checker's ledger, its pipeline and the run, as class `WebViewPermissionChecker` |

The external tools are parameters of the model:

- the dump tool maps an archive path to the lines it prints, or to `None`
  when it cannot be started;
- the decompiler maps an archive and an output directory to the tree it
  leaves there, or to `None` when that directory is missing afterwards;
- the hash maps a logical name to its SHA-256 hex digest.

The file system is modelled as state of the two classes:

- the results table is a `seq` field that `complete_analysis` rewrites in place;
- written files are a `map` from path to content;
- tool calls and directory removals are logs.

`multiprocessing.Pool` runs the jobs in parallel, but every commit is one
atomic step under the lock. The model therefore runs the jobs one after
another. `CommitsCommute` shows that commits for different apps give the
same table in either order.

The model follows the code on these points:

- **Package name.** Every `package:` line overwrites the identifier, so the
  LAST matching line wins, not the first.
- **Unreadable `.smali` files.** A `.smali` file that is not valid UTF-8
  makes `open(...).read()` raise inside `search_string_in_files`. The raise
  aborts the app's job, so no commit happens; the file is not skipped.
- **Logical name.** It is `path.replace(temp_dir + "/", "")`, which removes
  every occurrence and not only a leading one (`LogicalNameNotAnchored`).
- **Analysed flag in the checker.** `webview_id_pipeline` does not consult
  `apktool_analysed`; only `setup_analysis` filters on it.

## Model

| member | source | states |
|---|---|---|
| `Text.IsSpace` | Scripts/PermissionExtractor.py:70-71 | the characters `\s` matches (those for which `str.isspace` holds): blank, tab, newline and carriage return are among them, and no visible ASCII character is |
| `Text.SpaceRun` | Scripts/PermissionExtractor.py:70-71 | how far a greedy `\s+` reaches: every character before the result is whitespace and the next one is not |
| `Text.TokenRun` | Scripts/PermissionExtractor.py:70-71 | how far a greedy `\S+` reaches: no whitespace before the result and whitespace (or the end) right after it |
| `Text.Contains` | Scripts/WebViewPermissionChecker.py:65-67 | `sub in s`: the empty string is in every string, and no string is in a shorter one |
| `Text.ContainsIff` | Scripts/WebViewPermissionChecker.py:65-67 | `sub in s` holds exactly when `sub` occurs at some position of `s` |
| `Text.RemoveAll` | Scripts/WebViewPermissionChecker.py:95 | `replace(pat, "")` never makes a string longer |
| `Text.RemoveAllAt` | Scripts/WebViewPermissionChecker.py:95 | `replace(pat, "")` keeps everything before the first occurrence of `pat`, drops it, and treats the rest the same way |
| `Text.StripLeading` | Scripts/WebViewPermissionChecker.py:95 | `replace(pat, "")` removes a leading `pat`, leaving the rest when `pat` does not occur in it again |
| `Paths.Join` | Scripts/WebViewPermissionChecker.py:37-39 | `os.path.join(a, b)` is at least as long as `b` and at most one separator longer than `a` and `b` together; for a relative `b` it is at least as long as `a` and `b` together; `JoinSpec` gives the contents (the same join builds the archive path at Scripts/PermissionExtractor.py line 60 and the report path at line 87) |
| `Paths.JoinSpec` | Scripts/WebViewPermissionChecker.py:37-39 | `os.path.join(a, b)` ends with `b`; it is `b` when `b` is absolute and otherwise extends `a` |
| `Paths.LastComponent` | Scripts/WebViewPermissionChecker.py:32 | `split("/")[-1]` holds no `/` |
| `Paths.LastComponentIsSuffix` | Scripts/WebViewPermissionChecker.py:32 | `split("/")[-1]` is the end of the path, preceded by a `/` unless it is the whole path |
| `Paths.LastComponentOfJoin` | Scripts/WebViewPermissionChecker.py:32 | the last component of `join(a, name)` is `name` for a plain name |
| `Paths.LastDot` | Scripts/WebViewPermissionChecker.py:33 | where `rsplit(".", 1)` cuts: a `.` with no `.` after it, or -1 when there is none |
| `Paths.ReplaceLastDot` | Scripts/WebViewPermissionChecker.py:33-34 | the `rsplit(".", 1)` and `"_".join` rename keeps the length of the component |
| `Paths.ReplaceLastDotSpec` | Scripts/WebViewPermissionChecker.py:33-34 | the last `.` becomes `_` and every other character is kept |
| `Paths.ReplaceLastDotNoDot` | Scripts/WebViewPermissionChecker.py:33-34 | a component without `.` is left as it is |
| `Paths.ReplaceLastDotOf` | Scripts/WebViewPermissionChecker.py:33-34 | `x.y`, with no `.` in `y`, becomes `x_y` |
| `Paths.DirName` | Scripts/WebViewPermissionChecker.py:32-34 | the directory name holds no `/` and is as long as the last path component |
| `Paths.DirNameOfBaseApk` | Scripts/WebViewPermissionChecker.py:114-115 | every job's decompile and store directories are named `base_apk` |
| `Seqs.LastSomeSpec` | Scripts/PermissionExtractor.py:76-79 | a variable overwritten on every match holds the value of a match after which no line matches, and is unset exactly when no line matches |
| `Seqs.FilterCount` | Scripts/PermissionExtractor.py:108-111 | the row filter keeps every selected row as often as it occurs and drops every other |
| `Seqs.CollectSpec` | Scripts/PermissionExtractor.py:80-82 | a list appended on every match holds exactly the values of the matching lines |
| `Seqs.CollectAppend` | Scripts/PermissionExtractor.py:80-82 | appending over two runs of lines gives the first run's list followed by the second's, so each matching line adds one entry in line order, repeats kept |
| `Seqs.CollectIsSubsequence` | Scripts/WebViewPermissionChecker.py:59-68 | the appended values keep the order of the elements they come from |
| `Seqs.UpdateWhere` | Scripts/PermissionExtractor.py:117-120 | a `.loc[mask, col] = v` update changes exactly the rows the mask selects and keeps length and order |
| `PermissionDump.MatchPackage` | Scripts/PermissionExtractor.py:70-79 | a captured package token is non-empty and holds no whitespace |
| `PermissionDump.PackageMatchSpec` | Scripts/PermissionExtractor.py:70-79 | the matcher fails exactly when `package:\s+(\S+)` cannot match, and its token is a group the pattern captures, extended as far as `\S+` reaches |
| `PermissionDump.LastQuote` | Scripts/PermissionExtractor.py:71 | where the greedy `(\S+)'` backtracks to: a quote past the first character with no quote after it |
| `PermissionDump.MatchPermission` | Scripts/PermissionExtractor.py:71-82 | a captured permission name is non-empty and holds no whitespace |
| `PermissionDump.PermissionMatchSound` | Scripts/PermissionExtractor.py:71 | every captured name is the group of a match of `uses-permission:\s+name='(\S+)'` |
| `PermissionDump.PermissionMatchComplete` | Scripts/PermissionExtractor.py:71 | whenever the pattern can match, the matcher succeeds with a group at least as long as any the pattern allows |
| `PermissionDump.PermissionMatchSpec` | Scripts/PermissionExtractor.py:71 | the matcher fails exactly when the pattern cannot match, and otherwise returns the longest group the pattern can capture |
| `PermissionDump.PatternsAnchored` | Scripts/PermissionExtractor.py:76-82 | a line matches a pattern only if it begins with that pattern's keyword, so lines with leading text or whitespace match neither |
| `PermissionDump.PrefixesExclusive` | Scripts/PermissionExtractor.py:76-82 | a `package:` line never matches the permission pattern and a `uses-permission:` line never matches the package pattern |
| `PermissionDump.MatchPackageLine` | Scripts/PermissionExtractor.py:70 | a `package: <token>` line yields the token |
| `PermissionDump.MatchPermissionLine` | Scripts/PermissionExtractor.py:71 | a `uses-permission: name='<name>'` line yields the name |
| `PermissionDump.LastPackage` | Scripts/PermissionExtractor.py:73-79 | the identifier left after the loop, when there is one, is a non-empty token without whitespace |
| `PermissionDump.Permissions` | Scripts/PermissionExtractor.py:74-82 | the list left after the loop has at most one entry per line, and every entry is a non-empty name without whitespace |
| `PermissionDump.DumpSpec` | Scripts/PermissionExtractor.py:73-82 | no identifier exactly when no line can match the package pattern; every listed permission is a whitespace-free name captured from some line |
| `PermissionDump.PackageThenThree` | Scripts/PermissionExtractor.py:76-82 | for a package line and three permission lines, the last package wins and every permission is listed in line order, duplicates kept |
| `PermissionDump.ThreePermissionsExample` | Scripts/PermissionExtractor.py:76-82 | a concrete dump with one permission repeated lists `X`, `Y`, `X` under the package `a.b` |
| `PermissionDump.ExtractFromDump` | Scripts/PermissionExtractor.py:73-82 | the loop leaves the last package match in `app_id` and every permission match, in order, in `permissions` |
| `PermissionExtraction.SetupAnalysis` | Scripts/PermissionExtractor.py:105-112 | the pending rows are exactly the rows not yet analysed, each as often as in the table, in file order |
| `PermissionExtraction.Committed` | Scripts/PermissionExtractor.py:114-121 | every row with the id is marked analysed with the report path; other rows, count and order are unchanged; with no such row the table is unchanged |
| `PermissionExtraction.PendingAfterCommit` | Scripts/PermissionExtractor.py:117-120 | after a commit for an id, the pending rows are the previous ones minus those with that id, in order |
| `PermissionExtraction.CommitAgain` | Scripts/PermissionExtractor.py:117-120 | committing an id twice keeps only the later report path |
| `PermissionExtraction.CommitsCommute` | Scripts/PermissionExtractor.py:114-121 | commits for different ids give the same table in either order |
| `PermissionExtraction.PendingAfterCommits` | Scripts/PermissionExtractor.py:105-121 | after any sequence of commits, the pending rows are the earlier pending rows minus exactly the committed ids, in order |
| `PermissionExtraction.JobCommit` | Scripts/PermissionExtractor.py:50-93 | a job commits exactly when its row is not yet analysed, the dump ran and some line named a package; it commits the last package name with the path `<name>.json` |
| `PermissionExtraction.JobReport` | Scripts/PermissionExtractor.py:84-90 | a job that commits nothing writes no report; otherwise it writes exactly one, at the committed report path, recording the committed package name |
| `PermissionExtraction.RunReportsNamed` | Scripts/PermissionExtractor.py:84-90 | every report of a run sits at `<app_id>.json` for the package name it holds |
| `PermissionExtraction.NothingPendingNothingCommitted` | Scripts/PermissionExtractor.py:124-128 | a fully analysed table has no pending row, so a run over it calls no tool, commits nothing and leaves the table as it is |
| `PermissionExtraction.PermissionExtractor.constructor` | Scripts/PermissionExtractor.py:25-29 | a fresh extractor over the given table, with no report written and no tool run |
| `PermissionExtraction.PermissionExtractor.CompleteAnalysis` | Scripts/PermissionExtractor.py:114-122 | the in-place update leaves the table equal to `Committed` of the old one |
| `PermissionExtraction.PermissionExtractor.ExtractPermissions` | Scripts/PermissionExtractor.py:48-98 | an analysed row runs no tool; otherwise the tool runs once; the report and the commit happen exactly when `JobCommit` says so, else the table is unchanged |
| `PermissionExtraction.PermissionExtractor.RunJob` | Scripts/PermissionExtractor.py:103 | one more job of the pool: the table, the reports and the tool log move from their state after the first `i` rows to their state after `i + 1`, with one more tool call |
| `PermissionExtraction.PermissionExtractor.RunJobs` | Scripts/PermissionExtractor.py:100-103 | the jobs of the given rows, in order: tool called once per row, reports and commits those of the jobs |
| `PermissionExtraction.PermissionExtractor.Run` | Scripts/PermissionExtractor.py:124-128 | the run commits and reports exactly what the jobs of the pending rows do and runs the tool once per pending row, in order |
| `SmaliScan.Scan` | Scripts/WebViewPermissionChecker.py:50-72 | the scan raises exactly when some walked `.smali` file is not readable; otherwise it lists at most one path per walked file |
| `SmaliScan.MatchPathsIff` | Scripts/WebViewPermissionChecker.py:59-68 | a path is listed exactly when a walked `.smali` file at that path is readable and mentions a marker; no other file is listed |
| `SmaliScan.MatchesExist` | Scripts/WebViewPermissionChecker.py:119 | the match list is non-empty exactly when some walked `.smali` file mentions a marker |
| `SmaliScan.MatchPathsOrdered` | Scripts/WebViewPermissionChecker.py:59-68 | the match list is an order-preserving subsequence of the walked paths |
| `SmaliScan.NoSmaliNoMatch` | Scripts/WebViewPermissionChecker.py:61 | a tree without `.smali` files never raises and yields no match |
| `SmaliScan.SearchStringInFiles` | Scripts/WebViewPermissionChecker.py:50-72 | the nested loops return the match list of the walk, or fail when a `.smali` read raises |
| `SmaliStore.LogicalName` | Scripts/WebViewPermissionChecker.py:94-95 | the logical name is never longer than the path |
| `SmaliStore.LogicalNameOfChild` | Scripts/WebViewPermissionChecker.py:94-95 | a path under the decompile directory loses exactly that prefix when the rest does not repeat it |
| `SmaliStore.LogicalNameAt` | Scripts/WebViewPermissionChecker.py:94-95 | the logical name keeps the path up to the first `<temp dir>/`, drops it, and treats the rest of the path the same way |
| `SmaliStore.LogicalNameNotAnchored` | Scripts/WebViewPermissionChecker.py:95 | the replacement is not anchored: with directory `t`, `t/at/b` becomes `ab` |
| `SmaliStore.ArtifactName` | Scripts/WebViewPermissionChecker.py:96-101 | the stored file name is the hash of the logical name with the `.smali` suffix |
| `SmaliStore.Body` | Scripts/WebViewPermissionChecker.py:104-107 | a stored file starts with the logical name, ends with the code, and holds exactly the separator `"\n\n"` between them |
| `SmaliStore.BodyRoundTrip` | Scripts/WebViewPermissionChecker.py:104-107 | a stored body splits at its first blank line back into the logical name and the code |
| `SmaliStore.SaveWrites` | Scripts/WebViewPermissionChecker.py:93-107 | the copy loop gets to the end only if every matched path was readable |
| `SmaliStore.SaveFinishes` | Scripts/WebViewPermissionChecker.py:93-107 | the copy loop gets to the end exactly when every matched path is readable |
| `SmaliStore.SaveWritesSound` | Scripts/WebViewPermissionChecker.py:93-107 | every stored file sits at a matched path's artifact path and holds its logical name, a blank line and its code |
| `SmaliStore.SaveWritesComplete` | Scripts/WebViewPermissionChecker.py:93-107 | when the loop gets to the end, every matched path has its stored file |
| `SmaliStore.StoppedStaysStopped` | Scripts/WebViewPermissionChecker.py:102-103 | after a read raises, the later paths are neither read nor written |
| `WebViewChecking.SetupAnalysis` | Scripts/WebViewPermissionChecker.py:144-151 | the pending rows are exactly the rows not yet analysed, each as often as in the table, in file order |
| `WebViewChecking.Committed` | Scripts/WebViewPermissionChecker.py:153-162 | every row with the id is marked analysed with `join(base, id)` and the verdict; other rows, count and order are unchanged |
| `WebViewChecking.PendingAfterCommit` | Scripts/WebViewPermissionChecker.py:153-162 | after a commit, a row is pending exactly when it was before and does not have the committed id |
| `WebViewChecking.CommitAgain` | Scripts/WebViewPermissionChecker.py:153-162 | committing an id twice keeps only the later path and verdict |
| `WebViewChecking.CommitsCommute` | Scripts/WebViewPermissionChecker.py:153-162 | commits for different ids give the same table in either order |
| `WebViewChecking.PendingAfterCommits` | Scripts/WebViewPermissionChecker.py:144-162 | after any commits, a row is pending exactly when it was before and no verdict names its id |
| `WebViewChecking.DecompileDirIsRemoved` | Scripts/WebViewPermissionChecker.py:127-133 | the directory the decompiler writes lies under the directory the cleanup removes |
| `WebViewChecking.TreeOutcome` | Scripts/WebViewPermissionChecker.py:113-124 | a verdict is reached exactly when the decompiled tree exists, its scan does not raise and every copy is read; the verdict is whether the scan found matches; files are stored only when it did |
| `WebViewChecking.JobOutcome` | Scripts/WebViewPermissionChecker.py:110-124 | files are stored only when the decompiler produced a tree, and a reached verdict is true exactly when some readable `.smali` file of that tree mentions a marker |
| `WebViewChecking.NothingPendingNothingCommitted` | Scripts/WebViewPermissionChecker.py:136-151 | a fully analysed table has no pending row, so a run over it commits and stores nothing and leaves the table as it is |
| `WebViewChecking.VerdictMeansMarker` | Scripts/WebViewPermissionChecker.py:117-120 | the committed verdict is true exactly when some readable `.smali` file of the tree mentions a marker |
| `WebViewChecking.RunVerdictsIff` | Scripts/WebViewPermissionChecker.py:136-141 | a run commits a verdict exactly for each job that reaches one, with that job's row id |
| `WebViewChecking.RunLeavesOnlyFailed` | Scripts/WebViewPermissionChecker.py:136-151 | after a run, every row still pending was pending before and its job reached no verdict |
| `WebViewChecking.WebViewPermissionChecker.constructor` | Scripts/WebViewPermissionChecker.py:23-27 | a fresh checker over the given table, with an empty store and nothing removed |
| `WebViewChecking.WebViewPermissionChecker.DecompileApk` | Scripts/WebViewPermissionChecker.py:29-48 | the output directory is `join(temp, app_id, <dir name>)`, lies under the app's cleanup directory, and the tree is what the decompiler leaves there |
| `WebViewChecking.WebViewPermissionChecker.SaveSmaliCode` | Scripts/WebViewPermissionChecker.py:81-108 | the store gains exactly the copies `SaveWrites` describes (none for an empty list) and the result says whether every read succeeded |
| `WebViewChecking.WebViewPermissionChecker.CompleteAnalysis` | Scripts/WebViewPermissionChecker.py:153-163 | the in-place update leaves the table equal to `Committed` of the old one |
| `WebViewChecking.WebViewPermissionChecker.DeleteDecompiledApk` | Scripts/WebViewPermissionChecker.py:127-134 | the app's decompile directory is recorded as removed |
| `WebViewChecking.WebViewPermissionChecker.AnalyseTree` | Scripts/WebViewPermissionChecker.py:117-122 | scan, store and commit: the store gains the outcome's files and the table is committed exactly when the outcome has a verdict |
| `WebViewChecking.WebViewPermissionChecker.WebviewIdPipeline` | Scripts/WebViewPermissionChecker.py:110-125 | a failure at any step leaves the table unchanged, a verdict is committed otherwise, and the cleanup runs in every case |
| `WebViewChecking.WebViewPermissionChecker.RunJob` | Scripts/WebViewPermissionChecker.py:141 | one more pipeline of the pool: the table and the store move from their state after the first `i` rows to their state after `i + 1`, and the app's id joins the cleanup log |
| `WebViewChecking.WebViewPermissionChecker.RunJobs` | Scripts/WebViewPermissionChecker.py:139-141 | the pipelines of the given rows, in order: their commits, their stored files, one cleanup per row |
| `WebViewChecking.WebViewPermissionChecker.Run` | Scripts/WebViewPermissionChecker.py:136-142 | the run commits and stores exactly what the pipelines of the pending rows do and cleans up after every one of them |
| `WebViewChecking.AppIdsSpec` | Scripts/WebViewPermissionChecker.py:123-124 | the cleanup log that `RunJobs` and `Run` promise holds one id per processed row, that row's id, in row order |

## Left out

- Running the tools: `aapt` (`subprocess.run`) and apktool (`os.system`) are function parameters. `check_aapt2` (Scripts/PermissionExtractor.py:31-46) is not modelled, as it only checks that the tool can be run.
- `aapt`'s output is given already split into lines. Python's `splitlines` also splits at other line breaks, which is not modelled.
- `multiprocessing.Pool`, the pool sizes and the `Manager` lock are not modelled. The jobs run one after another, and each commit is one atomic step.
- Reading and writing the results table with pandas is not modelled: the table is a sequence of records. `astype(bool)` coercion and missing CSV values are not modelled either.
- `string_to_hash` (Scripts/WebViewPermissionChecker.py:74-79) is the `hash` parameter. SHA-256 itself and its collision behaviour are not modelled.
- File system details are not modelled: `os.path.abspath` normalisation, `os.makedirs`, and the order of `os.walk`. Paths are taken as already absolute and normalised, and the walk is a given sequence of directories.
- JSON formatting and logging are not modelled. A report is a record of the package name and the permission list.
- Failed writes of a JSON report or a smali copy are not modelled: every write is taken to succeed.
- `__init__` (both scripts) sets the store and temp paths to empty strings and the table file to a fixed name. The model takes the paths as constructor parameters and the table as a field.
- WebViewChecking.WebViewPermissionChecker.SaveSmaliCode: its second read of a matched file uses the content the walk gave, so a file that changes between scan and copy is not modelled.
- WebViewChecking.WebViewPermissionChecker.DeleteDecompiledApk: records the id in the `removed` log. The `os.path.exists` test is not modelled, because the model has no directory tree. The directory always exists at that point once `decompile_apk` has run `os.makedirs`.
- An exception raised before `decompile_apk` creates its directory is not modelled, for example from a non-string `apk_path`.
