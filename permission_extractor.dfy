/** The permission extractor: a results table of apps (the ledger), the
    pending filter that resumes a run, the per-app job that runs the dump
    tool, writes `<app_id>.json` and commits, and the sequential run over all
    pending apps. The dump tool is a parameter: it maps the archive path to
    the lines it prints, or to `None` when it cannot be run (the job's
    `try` block then catches the exception). */
module PermissionExtraction {
  import opened Seqs
  import opened Paths
  import opened PermissionDump

  /** One row of the results table, with its columns in file order. */
  datatype AppRow = AppRow(appId: string, apkPath: string, permissionsPath: Option<string>,
                           aapt2Analysed: bool)

  /** The document written to `<app_id>.json`. */
  datatype PermissionReport = PermissionReport(appId: string, permissions: seq<string>)

  /** The dump tool: archive path to printed lines, or `None` when it fails
      to run. */
  type DumpTool = string -> Option<seq<string>>

  predicate IsPending(row: AppRow)
  {
    !row.aapt2Analysed
  }

  /** `setup_analysis`: the rows not yet analysed, in file order. */
  function SetupAnalysis(table: seq<AppRow>): (pending: seq<AppRow>)
    ensures IsSubsequence(pending, table)
    ensures forall row :: row in pending <==> row in table && !row.aapt2Analysed
    ensures forall row :: multiset(pending)[row] == if IsPending(row) then multiset(table)[row] else 0
  {
    FilterIsSubsequence(table, IsPending);
    FilterCount(table, IsPending);
    Filter(table, IsPending)
  }

  /** `complete_analysis`'s effect on the table: every row whose `app_id` is
      `appId` is marked analysed with `permissionsPath`; all other rows, the
      row count and the row order stay as they were. */
  function Committed(table: seq<AppRow>, appId: string, permissionsPath: string): (t: seq<AppRow>)
    ensures |t| == |table|
    ensures forall k :: 0 <= k < |table| ==>
              if table[k].appId == appId
              then t[k] == table[k].(aapt2Analysed := true, permissionsPath := Some(permissionsPath))
              else t[k] == table[k]
    ensures (forall k :: 0 <= k < |table| ==> table[k].appId != appId) ==> t == table
  {
    UpdateWhere(table, (row: AppRow) => row.appId == appId,
                (row: AppRow) => row.(aapt2Analysed := true, permissionsPath := Some(permissionsPath)))
  }

  /** The pending rows of `table` without those whose id is in `ids`. */
  function PendingExcept(table: seq<AppRow>, ids: set<string>): seq<AppRow>
  {
    if table == [] then []
    else
      (if IsPending(table[0]) && table[0].appId !in ids then [table[0]] else [])
      + PendingExcept(table[1..], ids)
  }

  /** After a commit for `appId`, the pending rows are the previously pending
      ones minus those with that id: the committed id is never pending again,
      every other pending row still is, in the same order. */
  lemma {:induction false} PendingAfterCommit(table: seq<AppRow>, ids: set<string>, appId: string, path: string)
    ensures PendingExcept(Committed(table, appId, path), ids) == PendingExcept(table, ids + {appId})
    decreases |table|
  {
    if table != [] {
      var t := Committed(table, appId, path);
      assert t[1..] == Committed(table[1..], appId, path);
      PendingAfterCommit(table[1..], ids, appId, path);
    }
  }

  lemma {:induction false} PendingExceptNothing(table: seq<AppRow>)
    ensures PendingExcept(table, {}) == SetupAnalysis(table)
    decreases |table|
  {
    if table != [] {
      PendingExceptNothing(table[1..]);
    }
  }

  /** Committing the same id twice keeps only the later path. */
  lemma CommitAgain(table: seq<AppRow>, appId: string, path1: string, path2: string)
    ensures Committed(Committed(table, appId, path1), appId, path2) == Committed(table, appId, path2)
  {
  }

  /** Commits for different ids commute: the table a run leaves does not
      depend on the order in which the workers finish. */
  lemma CommitsCommute(table: seq<AppRow>, a: string, pa: string, b: string, pb: string)
    requires a != b
    ensures Committed(Committed(table, a, pa), b, pb) == Committed(Committed(table, b, pb), a, pa)
  {
  }

  /** A commit: the id the dump named and the path of the written report. */
  datatype Commit = Commit(appId: string, path: string)

  /** The table after the given commits, applied one at a time (the lock
      makes each one atomic). */
  function CommitAll(table: seq<AppRow>, commits: seq<Commit>): seq<AppRow>
  {
    if commits == [] then table
    else
      var c := commits[|commits| - 1];
      Committed(CommitAll(table, commits[..|commits| - 1]), c.appId, c.path)
  }

  function CommitIds(commits: seq<Commit>): set<string>
  {
    set c | c in commits :: c.appId
  }

  /** Resumability: after any sequence of commits, the pending rows are the
      previously pending rows minus exactly those whose id was committed, in
      the same order. */
  lemma PendingAfterCommits(table: seq<AppRow>, commits: seq<Commit>)
    ensures SetupAnalysis(CommitAll(table, commits)) == PendingExcept(table, CommitIds(commits))
    ensures forall row :: row in SetupAnalysis(CommitAll(table, commits)) ==> row.appId !in CommitIds(commits)
  {
    PendingExceptNothing(CommitAll(table, commits));
    PendingExceptOfCommits(table, commits, {});
    assert CommitIds(commits) + {} == CommitIds(commits);
    PendingExceptSound(table, CommitIds(commits));
  }

  /** Removing a set of ids from the pending rows of the committed table is
      removing them, together with the committed ids, from the original. */
  lemma {:induction false} PendingExceptOfCommits(table: seq<AppRow>, commits: seq<Commit>, ids: set<string>)
    ensures PendingExcept(CommitAll(table, commits), ids) == PendingExcept(table, CommitIds(commits) + ids)
    decreases |commits|
  {
    if commits == [] {
      assert CommitIds(commits) == {};
      assert CommitIds(commits) + ids == ids;
    } else {
      var init := commits[..|commits| - 1];
      var c := commits[|commits| - 1];
      PendingAfterCommit(CommitAll(table, init), ids, c.appId, c.path);
      PendingExceptOfCommits(table, init, ids + {c.appId});
      assert commits == init + [c];
      assert CommitIds(commits) + ids == CommitIds(init) + (ids + {c.appId});
    }
  }

  lemma {:induction false} PendingExceptSound(table: seq<AppRow>, ids: set<string>)
    ensures forall row :: row in PendingExcept(table, ids) ==> row.appId !in ids && IsPending(row)
    decreases |table|
  {
    if table != [] {
      PendingExceptSound(table[1..], ids);
    }
  }

  /** The archive the dump tool is run on: `join(apk_path, "base.apk")`. */
  function ApkFile(apkPath: string): string
  {
    Join(apkPath, "base.apk")
  }

  /** `join(permissions_store_path, app_id + ".json")`. */
  function ReportPath(storePath: string, appId: string): string
  {
    Join(storePath, appId + ".json")
  }

  /** What the job for `row` commits, if anything: nothing for a row already
      analysed, for a tool that could not run, or for a dump without a
      package line; otherwise the parsed package name (not the row's own id)
      with the report path. */
  function JobCommit(storePath: string, row: AppRow, aapt: DumpTool): (c: Option<Commit>)
    ensures c.Some? ==> !row.aapt2Analysed && aapt(ApkFile(row.apkPath)).Some?
    ensures c.Some? ==> c.value.path == ReportPath(storePath, c.value.appId)
    ensures c.Some? ==> c.value.appId != [] && LastPackage(aapt(ApkFile(row.apkPath)).value) == Some(c.value.appId)
    ensures c.Some? <==> !row.aapt2Analysed && aapt(ApkFile(row.apkPath)).Some?
                         && LastPackage(aapt(ApkFile(row.apkPath)).value).Some?
  {
    if row.aapt2Analysed then None
    else
      match aapt(ApkFile(row.apkPath))
      case None => None
      case Some(lines) =>
        match LastPackage(lines)
        case None => None
        case Some(appId) =>
          LastSomeSpec(lines, MatchPackage);
          Some(Commit(appId, ReportPath(storePath, appId)))
  }

  /** The commits of a run over `rows`, in the order the jobs finish. */
  function RunCommits(storePath: string, rows: seq<AppRow>, aapt: DumpTool): seq<Commit>
  {
    if rows == [] then []
    else
      var init := RunCommits(storePath, rows[..|rows| - 1], aapt);
      match JobCommit(storePath, rows[|rows| - 1], aapt)
      case None => init
      case Some(c) => init + [c]
  }

  /** The report the job for `row` writes, by path: none when it commits
      nothing, else the parsed name and permissions at the report path. */
  function JobReport(storePath: string, row: AppRow, aapt: DumpTool): (r: map<string, PermissionReport>)
    ensures |r| <= 1
    ensures JobCommit(storePath, row, aapt).None? ==> r == map[]
    ensures JobCommit(storePath, row, aapt).Some? ==>
              var c := JobCommit(storePath, row, aapt).value;
              c.path in r && r[c.path].appId == c.appId
  {
    match JobCommit(storePath, row, aapt)
    case None => map[]
    case Some(c) => map[c.path := PermissionReport(c.appId, Permissions(aapt(ApkFile(row.apkPath)).value))]
  }

  /** The reports a run over `rows` writes, a later report replacing an
      earlier one at the same path. */
  function RunReports(storePath: string, rows: seq<AppRow>, aapt: DumpTool): map<string, PermissionReport>
  {
    if rows == [] then map[]
    else RunReports(storePath, rows[..|rows| - 1], aapt) + JobReport(storePath, rows[|rows| - 1], aapt)
  }

  /** Every report of a run sits at the path `<name>.json` of the package
      name it holds. */
  lemma {:induction false} RunReportsNamed(storePath: string, rows: seq<AppRow>, aapt: DumpTool)
    ensures forall p :: p in RunReports(storePath, rows, aapt) ==>
              p == ReportPath(storePath, RunReports(storePath, rows, aapt)[p].appId)
    decreases |rows|
  {
    if rows != [] {
      RunReportsNamed(storePath, rows[..|rows| - 1], aapt);
    }
  }

  lemma RunReportsStep(storePath: string, rows: seq<AppRow>, i: nat, aapt: DumpTool)
    requires i < |rows|
    ensures RunReports(storePath, rows[..i + 1], aapt)
            == RunReports(storePath, rows[..i], aapt) + JobReport(storePath, rows[i], aapt)
  {
    assert rows[..i + 1][..i] == rows[..i];
  }

  /** The tool-call log of `i` jobs, extended by the archive of the next
      row, is the log of `i + 1` jobs. */
  lemma CallsStep(calls: seq<string>, rows: seq<AppRow>, i: nat, before: seq<string>, after: seq<string>)
    requires i < |rows|
    requires |before| == |calls| + i && before[..|calls|] == calls
    requires forall k :: 0 <= k < i ==> before[|calls| + k] == ApkFile(rows[k].apkPath)
    requires after == before + [ApkFile(rows[i].apkPath)]
    ensures |after| == |calls| + i + 1 && after[..|calls|] == calls
    ensures forall k :: 0 <= k < i + 1 ==> after[|calls| + k] == ApkFile(rows[k].apkPath)
  {
    assert after[..|calls|] == before[..|calls|];
  }

  lemma ReportsStep<K, V>(written: map<K, V>, done: map<K, V>, before: map<K, V>, after: map<K, V>, job: map<K, V>)
    requires before == written + done && after == before + job
    ensures after == written + (done + job)
  {
  }

  lemma PendingNotAnalysed(table: seq<AppRow>)
    ensures forall k :: 0 <= k < |SetupAnalysis(table)| ==> !SetupAnalysis(table)[k].aapt2Analysed
  {
    forall k | 0 <= k < |SetupAnalysis(table)|
      ensures !SetupAnalysis(table)[k].aapt2Analysed
    {
      assert SetupAnalysis(table)[k] in SetupAnalysis(table);
    }
  }

  /** One more job of a run: its tool call is appended, and its commit, if
      any, is applied after those of the jobs before it. */
  lemma RunStep(storePath: string, rows: seq<AppRow>, i: nat, aapt: DumpTool, table: seq<AppRow>)
    requires i < |rows|
    ensures var before := CommitAll(table, RunCommits(storePath, rows[..i], aapt));
            CommitAll(table, RunCommits(storePath, rows[..i + 1], aapt))
            == match JobCommit(storePath, rows[i], aapt)
               case None => before
               case Some(c) => Committed(before, c.appId, c.path)
  {
    assert rows[..i + 1][..i] == rows[..i];
    var before := RunCommits(storePath, rows[..i], aapt);
    match JobCommit(storePath, rows[i], aapt) {
      case None =>
      case Some(c) =>
        assert (before + [c])[..|before|] == before;
    }
  }

  /** A run over a table with no pending row commits nothing and leaves the
      table as it is. */
  lemma NothingPendingNothingCommitted(storePath: string, table: seq<AppRow>, aapt: DumpTool)
    requires forall k :: 0 <= k < |table| ==> table[k].aapt2Analysed
    ensures SetupAnalysis(table) == []
    ensures RunCommits(storePath, SetupAnalysis(table), aapt) == []
    ensures CommitAll(table, RunCommits(storePath, SetupAnalysis(table), aapt)) == table
  {
    assert forall row :: row !in SetupAnalysis(table);
  }

  class PermissionExtractor {
    const permissionsStorePath: string
    /** The results table file. */
    var results: seq<AppRow>
    /** The reports written so far, by path. */
    var reports: map<string, PermissionReport>
    /** The archives the dump tool was run on, in call order. */
    var toolCalls: seq<string>

    constructor (permissionsStorePath: string, results: seq<AppRow>)
      ensures this.permissionsStorePath == permissionsStorePath && this.results == results
      ensures reports == map[] && toolCalls == []
    {
      this.permissionsStorePath := permissionsStorePath;
      this.results := results;
      reports := map[];
      toolCalls := [];
    }

    /** `complete_analysis`: under the lock, the rows whose `app_id` is
        `appId` are marked analysed with `permissionsPath`. */
    method CompleteAnalysis(appId: string, permissionsPath: string)
      modifies this`results
      ensures results == Committed(old(results), appId, permissionsPath)
    {
      var k := 0;
      while k < |results|
        invariant 0 <= k <= |results| == |old(results)|
        invariant forall m :: 0 <= m < k ==> results[m] == Committed(old(results), appId, permissionsPath)[m]
        invariant forall m :: k <= m < |results| ==> results[m] == old(results)[m]
      {
        if results[k].appId == appId {
          results := results[k := results[k].(aapt2Analysed := true, permissionsPath := Some(permissionsPath))];
        }
        k := k + 1;
      }
    }

    /** `extract_permissions`: skip a row already analysed; otherwise run the
        dump tool, parse its lines, and when a package name was found write
        the report and commit under that name. */
    method ExtractPermissions(row: AppRow, aapt: DumpTool)
      modifies this`results, this`reports, this`toolCalls
      ensures row.aapt2Analysed ==> toolCalls == old(toolCalls)
      ensures !row.aapt2Analysed ==> toolCalls == old(toolCalls) + [ApkFile(row.apkPath)]
      ensures reports == old(reports) + JobReport(permissionsStorePath, row, aapt)
      ensures JobCommit(permissionsStorePath, row, aapt).None? ==> results == old(results)
      ensures JobCommit(permissionsStorePath, row, aapt).Some? ==>
                var c := JobCommit(permissionsStorePath, row, aapt).value;
                results == Committed(old(results), c.appId, c.path)
    {
      if row.aapt2Analysed {
        return;
      }
      var apk := ApkFile(row.apkPath);
      toolCalls := toolCalls + [apk];
      var output := aapt(apk);
      if output.None? {
        assert JobCommit(permissionsStorePath, row, aapt).None?;
        assert JobReport(permissionsStorePath, row, aapt) == map[];
        return;
      }
      var appId, permissions := ExtractFromDump(output.value);
      if appId.None? {
        assert JobCommit(permissionsStorePath, row, aapt).None?;
        assert JobReport(permissionsStorePath, row, aapt) == map[];
      } else {
        var outputPath := ReportPath(permissionsStorePath, appId.value);
        assert JobCommit(permissionsStorePath, row, aapt) == Some(Commit(appId.value, outputPath));
        assert JobReport(permissionsStorePath, row, aapt) == map[outputPath := PermissionReport(appId.value, permissions)];
        reports := reports[outputPath := PermissionReport(appId.value, permissions)];
        CompleteAnalysis(appId.value, outputPath);
      }
    }

    /** One job of a run, with the bookkeeping of the jobs before it carried
        across. */
    method RunJob(apps: seq<AppRow>, i: nat, aapt: DumpTool, ghost table: seq<AppRow>,
                  ghost written: map<string, PermissionReport>)
      requires i < |apps| && !apps[i].aapt2Analysed
      requires results == CommitAll(table, RunCommits(permissionsStorePath, apps[..i], aapt))
      requires reports == written + RunReports(permissionsStorePath, apps[..i], aapt)
      modifies this`results, this`reports, this`toolCalls
      ensures results == CommitAll(table, RunCommits(permissionsStorePath, apps[..i + 1], aapt))
      ensures reports == written + RunReports(permissionsStorePath, apps[..i + 1], aapt)
      ensures toolCalls == old(toolCalls) + [ApkFile(apps[i].apkPath)]
    {
      RunStep(permissionsStorePath, apps, i, aapt, table);
      RunReportsStep(permissionsStorePath, apps, i, aapt);
      ghost var before := reports;
      ExtractPermissions(apps[i], aapt);
      ReportsStep(written, RunReports(permissionsStorePath, apps[..i], aapt), before, reports,
                  JobReport(permissionsStorePath, apps[i], aapt));
    }

    /** The jobs of `apps`, one after another. */
    method RunJobs(apps: seq<AppRow>, aapt: DumpTool)
      requires forall k :: 0 <= k < |apps| ==> !apps[k].aapt2Analysed
      modifies this`results, this`reports, this`toolCalls
      ensures results == CommitAll(old(results), RunCommits(permissionsStorePath, apps, aapt))
      ensures reports == old(reports) + RunReports(permissionsStorePath, apps, aapt)
      ensures |toolCalls| == |old(toolCalls)| + |apps| && toolCalls[..|old(toolCalls)|] == old(toolCalls)
      ensures forall k :: 0 <= k < |apps| ==> toolCalls[|old(toolCalls)| + k] == ApkFile(apps[k].apkPath)
    {
      ghost var table := results;
      ghost var written := reports;
      ghost var calls := toolCalls;
      var i := 0;
      assert apps[..0] == [];
      while i < |apps|
        invariant 0 <= i <= |apps|
        invariant results == CommitAll(table, RunCommits(permissionsStorePath, apps[..i], aapt))
        invariant reports == written + RunReports(permissionsStorePath, apps[..i], aapt)
        invariant |toolCalls| == |calls| + i && toolCalls[..|calls|] == calls
        invariant forall k :: 0 <= k < i ==> toolCalls[|calls| + k] == ApkFile(apps[k].apkPath)
      {
        ghost var before := toolCalls;
        RunJob(apps, i, aapt, table, written);
        CallsStep(calls, apps, i, before, toolCalls);
        i := i + 1;
      }
      assert apps[..i] == apps;
    }

    /** `main`: read the pending rows once, then run the job for each of them;
        the lock makes every commit atomic, so the run is modelled as the jobs
        one after another. */
    method Run(aapt: DumpTool)
      modifies this`results, this`reports, this`toolCalls
      ensures results == CommitAll(old(results), RunCommits(permissionsStorePath, SetupAnalysis(old(results)), aapt))
      ensures reports == old(reports) + RunReports(permissionsStorePath, SetupAnalysis(old(results)), aapt)
      ensures var pending := SetupAnalysis(old(results));
              |toolCalls| == |old(toolCalls)| + |pending| && toolCalls[..|old(toolCalls)|] == old(toolCalls)
              && forall k :: 0 <= k < |pending| ==> toolCalls[|old(toolCalls)| + k] == ApkFile(pending[k].apkPath)
    {
      var apps := SetupAnalysis(results);
      PendingNotAnalysed(results);
      RunJobs(apps, aapt);
    }
  }
}
