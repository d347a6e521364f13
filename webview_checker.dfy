/** The WebView permission checker: a results table of apps, the pending
    filter, the per-app pipeline (decompile, scan for the WebView permission
    hooks, store the matching smali files, commit, and always remove the
    decompile directory), and the sequential run over all pending apps. The
    decompiler is a parameter: given the archive and the output directory it
    yields the tree it leaves there, or `None` when that directory does not
    exist afterwards. */
module WebViewChecking {
  import opened Text
  import opened Paths
  import opened Seqs
  import opened SmaliScan
  import opened SmaliStore

  /** One row of the results table, with its columns in file order;
      `webviewPermissions` is empty until the row is analysed. */
  datatype AppRecord = AppRecord(appId: string, apkPath: string, resultsPath: Option<string>,
                                 webviewPermissions: Option<bool>, apktoolAnalysed: bool)

  /** The decompiler: archive path and output directory to the tree it
      leaves there, or `None` when the directory is missing afterwards. */
  type Decompiler = (string, string) -> Option<seq<WalkDir>>

  predicate IsPending(row: AppRecord)
  {
    !row.apktoolAnalysed
  }

  /** `setup_analysis`: the rows not yet analysed, in file order. */
  function SetupAnalysis(table: seq<AppRecord>): (pending: seq<AppRecord>)
    ensures IsSubsequence(pending, table)
    ensures forall row :: row in pending <==> row in table && !row.apktoolAnalysed
    ensures forall row :: multiset(pending)[row] == if IsPending(row) then multiset(table)[row] else 0
  {
    FilterIsSubsequence(table, IsPending);
    FilterCount(table, IsPending);
    Filter(table, IsPending)
  }

  /** `complete_analysis`'s effect on the table: every row whose `app_id` is
      `appId` is marked analysed, gets `resultsPath` and the verdict; all
      other rows, the row count and the row order stay as they were. */
  function Committed(table: seq<AppRecord>, appId: string, resultsPath: string, present: bool): (t: seq<AppRecord>)
    ensures |t| == |table|
    ensures forall k :: 0 <= k < |table| ==>
              if table[k].appId == appId
              then t[k] == table[k].(apktoolAnalysed := true, resultsPath := Some(resultsPath),
                                     webviewPermissions := Some(present))
              else t[k] == table[k]
    ensures (forall k :: 0 <= k < |table| ==> table[k].appId != appId) ==> t == table
  {
    UpdateWhere(table, (row: AppRecord) => row.appId == appId,
                (row: AppRecord) => row.(apktoolAnalysed := true, resultsPath := Some(resultsPath),
                                         webviewPermissions := Some(present)))
  }

  /** Resumability of one commit: afterwards a row is pending exactly when it
      was pending before and its id is not the committed one. */
  lemma PendingAfterCommit(table: seq<AppRecord>, appId: string, resultsPath: string, present: bool)
    ensures forall row :: row in SetupAnalysis(Committed(table, appId, resultsPath, present))
                          <==> row in SetupAnalysis(table) && row.appId != appId
  {
    var t := Committed(table, appId, resultsPath, present);
    forall row | row in SetupAnalysis(t)
      ensures row in SetupAnalysis(table) && row.appId != appId
    {
      var k :| 0 <= k < |t| && t[k] == row;
    }
    forall row | row in SetupAnalysis(table) && row.appId != appId
      ensures row in SetupAnalysis(t)
    {
      var k :| 0 <= k < |table| && table[k] == row;
      assert t[k] == row;
    }
  }

  /** The `app_id` of each row, in order. */
  function AppIds(rows: seq<AppRecord>): seq<string>
  {
    if rows == [] then [] else AppIds(rows[..|rows| - 1]) + [rows[|rows| - 1].appId]
  }

  /** One id per row, in row order. */
  lemma {:induction false} AppIdsSpec(rows: seq<AppRecord>)
    ensures |AppIds(rows)| == |rows|
    ensures forall k :: 0 <= k < |rows| ==> AppIds(rows)[k] == rows[k].appId
    decreases |rows|
  {
    if rows != [] {
      AppIdsSpec(rows[..|rows| - 1]);
    }
  }

  /** A log of ids extended by the id of the next row is the log of ids
      of one more row. */
  lemma AppIdsStep(done: seq<string>, rows: seq<AppRecord>, i: nat, before: seq<string>, after: seq<string>)
    requires i < |rows| && before == done + AppIds(rows[..i]) && after == before + [rows[i].appId]
    ensures after == done + AppIds(rows[..i + 1])
  {
    assert rows[..i + 1][..i] == rows[..i];
  }

  /** Committing the same id twice keeps only the later path and verdict. */
  lemma CommitAgain(table: seq<AppRecord>, appId: string, p1: string, v1: bool, p2: string, v2: bool)
    ensures Committed(Committed(table, appId, p1, v1), appId, p2, v2) == Committed(table, appId, p2, v2)
  {
  }

  /** Commits for different ids commute: the table a run leaves does not
      depend on the order in which the workers finish. */
  lemma CommitsCommute(table: seq<AppRecord>, a: string, pa: string, va: bool, b: string, pb: string, vb: bool)
    requires a != b
    ensures Committed(Committed(table, a, pa, va), b, pb, vb) == Committed(Committed(table, b, pb, vb), a, pa, va)
  {
  }

  /** A verdict: the app and whether a WebView permission hook was found. */
  datatype Verdict = Verdict(appId: string, present: bool)

  function ResultsPath(baseStorePath: string, appId: string): string
  {
    Join(baseStorePath, appId)
  }

  /** The table after the given verdicts, committed one at a time. */
  function CommitAll(baseStorePath: string, table: seq<AppRecord>, verdicts: seq<Verdict>): seq<AppRecord>
  {
    if verdicts == [] then table
    else
      var v := verdicts[|verdicts| - 1];
      Committed(CommitAll(baseStorePath, table, verdicts[..|verdicts| - 1]), v.appId,
                ResultsPath(baseStorePath, v.appId), v.present)
  }

  /** Resumability: after any sequence of commits, a row is pending exactly
      when it was pending before and no verdict was committed for its id. */
  lemma {:induction false} PendingAfterCommits(baseStorePath: string, table: seq<AppRecord>, verdicts: seq<Verdict>)
    ensures forall row :: row in SetupAnalysis(CommitAll(baseStorePath, table, verdicts))
                          <==> row in SetupAnalysis(table) && forall v :: v in verdicts ==> v.appId != row.appId
    decreases |verdicts|
  {
    if verdicts != [] {
      var init := verdicts[..|verdicts| - 1];
      var v := verdicts[|verdicts| - 1];
      var before := CommitAll(baseStorePath, table, init);
      assert verdicts == init + [v];
      PendingAfterCommits(baseStorePath, table, init);
      PendingAfterCommit(before, v.appId, ResultsPath(baseStorePath, v.appId), v.present);
      forall row
        ensures row in SetupAnalysis(CommitAll(baseStorePath, table, verdicts))
                <==> row in SetupAnalysis(table) && forall w :: w in verdicts ==> w.appId != row.appId
      {
        assert row in SetupAnalysis(CommitAll(baseStorePath, table, verdicts))
               <==> row in SetupAnalysis(before) && row.appId != v.appId;
      }
    }
  }

  /** The name of the archive inside every app's directory. */
  const BaseApk := "base.apk"

  /** The archive a job works on: `join(apk_path, "base.apk")`. */
  function ApkFile(apkPath: string): string
  {
    Join(apkPath, BaseApk)
  }

  /** `decompile_apk`'s output directory:
      `join(decompile_apk_temp_dir, app_id, <archive dir name>)`. */
  function DecompileDir(tempDir: string, appId: string, apkContent: string): string
  {
    Join(Join(tempDir, appId), DirName(apkContent))
  }

  /** The cleanup of an app removes the directory its decompiler wrote. */
  lemma DecompileDirIsRemoved(tempDir: string, appId: string, apkContent: string)
    ensures IsWithin(DecompileDir(tempDir, appId, apkContent), Join(tempDir, appId))
  {
    var d := DirName(apkContent);
    if d != [] {
      assert d[..1][0] == d[0];
    }
    JoinIsWithin(Join(tempDir, appId), d);
  }

  /** What the pipeline of `app` does: the smali files it stores and the
      verdict it commits, if any. Nothing is stored or committed when the
      decompile directory is missing or the scan raises; the verdict is not
      committed when storing raises, though what was stored stays. */
  datatype Outcome = Outcome(writes: map<string, string>, verdict: Option<bool>)

  /** What the steps after decompiling do with the decompiler's result:
      scan the tree, copy the matches into `storeDir`, and decide. */
  function TreeOutcome(storeDir: string, tempDir: string, hash: Hash, tree: Option<seq<WalkDir>>): (o: Outcome)
    ensures o.verdict.Some? ==> tree.Some? && Scan(tree.value).Some?
    ensures o.writes != map[] ==> tree.Some? && Scan(tree.value).Some? && Scan(tree.value).value != []
    ensures o.verdict.Some? <==>
              tree.Some? && Scan(tree.value).Some?
              && SaveWrites(storeDir, tempDir, hash, Flatten(tree.value), Scan(tree.value).value).finished
    ensures o.verdict.Some? ==> o.verdict.value == (Scan(tree.value).value != [])
  {
    match tree
    case None => Outcome(map[], None)
    case Some(walk) =>
      match Scan(walk)
      case None => Outcome(map[], None)
      case Some(matches) =>
        var saved := SaveWrites(storeDir, tempDir, hash, Flatten(walk), matches);
        Outcome(saved.writes, if saved.finished then Some(|matches| > 0) else None)
  }

  /** The pipeline of `app`: the decompiler runs on the app's archive into
      the app's decompile directory, and the copies go to the app's store
      directory named after the same archive. */
  function JobOutcome(tempDir: string, baseStorePath: string, hash: Hash, app: AppRecord,
                      apktool: Decompiler): (o: Outcome)
    ensures var apk := ApkFile(app.apkPath);
            o.verdict.Some? ==> apktool(apk, DecompileDir(tempDir, app.appId, apk)).Some?
    ensures var apk := ApkFile(app.apkPath);
            o.writes != map[] ==> apktool(apk, DecompileDir(tempDir, app.appId, apk)).Some?
    ensures var apk := ApkFile(app.apkPath);
            o.verdict.Some? ==> (o.verdict.value <==> AnyMatch(Flatten(apktool(apk, DecompileDir(tempDir, app.appId, apk)).value)))
  {
    var apk := ApkFile(app.apkPath);
    var storeDir := SmaliDir(baseStorePath, app.appId, apk);
    var tree := apktool(apk, DecompileDir(tempDir, app.appId, apk));
    var o := TreeOutcome(storeDir, tempDir, hash, tree);
    if o.verdict.Some? then VerdictMeansMarker(storeDir, tempDir, hash, tree); o else o
  }

  /** The verdict committed for a tree is whether some walked `.smali` file
      of it is readable and mentions one of the markers. */
  lemma VerdictMeansMarker(storeDir: string, tempDir: string, hash: Hash, tree: Option<seq<WalkDir>>)
    requires TreeOutcome(storeDir, tempDir, hash, tree).verdict.Some?
    ensures TreeOutcome(storeDir, tempDir, hash, tree).verdict.value <==> AnyMatch(Flatten(tree.value))
  {
    var es := Flatten(tree.value);
    var ms := MatchPaths(es);
    assert Scan(tree.value) == Some(ms);
    assert TreeOutcome(storeDir, tempDir, hash, tree).verdict.value == (ms != []);
    MatchesExist(es);
  }

  /** What the job of each row does; a run is a fold over these. */
  type Job = AppRecord -> Outcome

  /** The jobs of a run of the checker: the pipeline with its directories,
      hash and decompiler fixed. */
  function Pipeline(tempDir: string, baseStorePath: string, hash: Hash, apktool: Decompiler): Job
  {
    row => JobOutcome(tempDir, baseStorePath, hash, row, apktool)
  }

  /** The verdict the job of a row commits, if any. */
  function VerdictOf(job: Job): AppRecord -> Option<Verdict>
  {
    row =>
      match job(row).verdict
      case None => None
      case Some(present) => Some(Verdict(row.appId, present))
  }

  /** The verdicts of a run over `rows`, in the order the jobs finish. */
  function RunVerdicts(rows: seq<AppRecord>, job: Job): seq<Verdict>
  {
    Collect(rows, VerdictOf(job))
  }

  /** A run commits exactly the verdicts its jobs reach: each verdict is
      the outcome of the job of one of its rows, and every job that reaches
      a verdict has it committed. */
  lemma RunVerdictsIff(rows: seq<AppRecord>, job: Job)
    ensures forall v :: v in RunVerdicts(rows, job) <==>
              exists k :: 0 <= k < |rows| && rows[k].appId == v.appId && job(rows[k]).verdict == Some(v.present)
    ensures forall k :: 0 <= k < |rows| && job(rows[k]).verdict.Some? ==>
              Verdict(rows[k].appId, job(rows[k]).verdict.value) in RunVerdicts(rows, job)
  {
    CollectSpec(rows, VerdictOf(job));
    forall k | 0 <= k < |rows| && job(rows[k]).verdict.Some?
      ensures Verdict(rows[k].appId, job(rows[k]).verdict.value) in RunVerdicts(rows, job)
    {
      assert VerdictOf(job)(rows[k]) == Some(Verdict(rows[k].appId, job(rows[k]).verdict.value));
    }
  }

  lemma RunVerdictsStep(rows: seq<AppRecord>, i: nat, job: Job)
    requires i < |rows|
    ensures RunVerdicts(rows[..i + 1], job)
            == RunVerdicts(rows[..i], job)
               + match job(rows[i]).verdict { case None => [] case Some(present) => [Verdict(rows[i].appId, present)] }
  {
    assert rows[..i + 1][..i] == rows[..i];
    assert rows[..i + 1][i] == rows[i];
  }

  /** After a run, every row still pending was pending before and its own
      job reached no verdict; a row whose job reached one is never pending
      again. */
  lemma RunLeavesOnlyFailed(baseStorePath: string, table: seq<AppRecord>, job: Job)
    ensures var pending := SetupAnalysis(table);
            forall row :: row in SetupAnalysis(CommitAll(baseStorePath, table, RunVerdicts(pending, job))) ==>
              row in pending && job(row).verdict.None?
  {
    var pending := SetupAnalysis(table);
    var verdicts := RunVerdicts(pending, job);
    PendingAfterCommits(baseStorePath, table, verdicts);
    RunVerdictsIff(pending, job);
    forall row | row in SetupAnalysis(CommitAll(baseStorePath, table, verdicts))
      ensures job(row).verdict.None?
    {
      var k :| 0 <= k < |pending| && pending[k] == row;
    }
  }

  /** A run over a table with no pending row runs no pipeline, commits
      nothing, stores nothing and leaves the table as it is. */
  lemma NothingPendingNothingCommitted(baseStorePath: string, table: seq<AppRecord>, job: Job)
    requires forall k :: 0 <= k < |table| ==> table[k].apktoolAnalysed
    ensures SetupAnalysis(table) == []
    ensures RunVerdicts(SetupAnalysis(table), job) == []
    ensures CommitAll(baseStorePath, table, RunVerdicts(SetupAnalysis(table), job)) == table
    ensures RunWrites(SetupAnalysis(table), job) == map[]
  {
    assert forall row :: row !in SetupAnalysis(table);
  }

  /** The smali copies a run over `rows` writes, later jobs' files replacing
      earlier ones at the same path. */
  function RunWrites(rows: seq<AppRecord>, job: Job): map<string, string>
  {
    if rows == [] then map[] else RunWrites(rows[..|rows| - 1], job) + job(rows[|rows| - 1]).writes
  }

  /** One more job of a run: its verdict, if any, is committed after those
      of the jobs before it. */
  lemma RunStep(baseStorePath: string, rows: seq<AppRecord>, i: nat, job: Job, table: seq<AppRecord>)
    requires i < |rows|
    ensures var before := CommitAll(baseStorePath, table, RunVerdicts(rows[..i], job));
            CommitAll(baseStorePath, table, RunVerdicts(rows[..i + 1], job))
            == match job(rows[i]).verdict
               case None => before
               case Some(present) => Committed(before, rows[i].appId, ResultsPath(baseStorePath, rows[i].appId), present)
  {
    RunVerdictsStep(rows, i, job);
    var before := RunVerdicts(rows[..i], job);
    match job(rows[i]).verdict {
      case None =>
        assert before + [] == before;
      case Some(present) =>
        var v := Verdict(rows[i].appId, present);
        assert (before + [v])[..|before|] == before;
    }
  }

  lemma UnionUpdate<K, V>(a: map<K, V>, b: map<K, V>, key: K, v: V)
    ensures (a + b)[key := v] == a + b[key := v]
  {
  }

  lemma UnionAssoc<K, V>(a: map<K, V>, b: map<K, V>, c: map<K, V>)
    ensures (a + b) + c == a + (b + c)
  {
  }

  lemma RunWritesStep(rows: seq<AppRecord>, i: nat, job: Job)
    requires i < |rows|
    ensures RunWrites(rows[..i + 1], job) == RunWrites(rows[..i], job) + job(rows[i]).writes
  {
    assert rows[..i + 1][..i] == rows[..i];
  }

  class WebViewPermissionChecker {
    const baseStorePath: string
    const decompileTempDir: string
    const hash: Hash
    /** The results table file. */
    var results: seq<AppRecord>
    /** The smali copies written under the store, by path. */
    var smaliStore: map<string, string>
    /** The `app_id` of every decompile directory `join(temp_dir, app_id)`
        removed, in order. */
    var removed: seq<string>

    constructor (baseStorePath: string, decompileTempDir: string, hash: Hash, results: seq<AppRecord>)
      ensures this.baseStorePath == baseStorePath && this.decompileTempDir == decompileTempDir
      ensures this.hash == hash && this.results == results
      ensures smaliStore == map[] && removed == []
    {
      this.baseStorePath := baseStorePath;
      this.decompileTempDir := decompileTempDir;
      this.hash := hash;
      this.results := results;
      smaliStore := map[];
      removed := [];
    }

    /** `decompile_apk`: run the decompiler into the app's directory named
        after the archive; a missing output directory raises. */
    method DecompileApk(appId: string, apkContent: string, apktool: Decompiler)
      returns (dir: string, tree: Option<seq<WalkDir>>)
      ensures dir == DecompileDir(decompileTempDir, appId, apkContent)
      ensures IsWithin(dir, Join(decompileTempDir, appId))
      ensures tree == apktool(apkContent, dir)
    {
      var name := ReplaceLastDot(LastComponent(apkContent));
      dir := Join(Join(decompileTempDir, appId), name);
      DecompileDirIsRemoved(decompileTempDir, appId, apkContent);
      tree := apktool(apkContent, dir);
    }

    /** `save_smali_code`: nothing to do for an empty match list; otherwise
        each matched file is read and copied, in order, under its artifact
        path; a read that raises stops the loop. */
    method SaveSmaliCode(appId: string, filePaths: seq<string>, apkContent: string, tree: seq<Walked>)
      returns (finished: bool)
      modifies this`smaliStore
      ensures var saved := SaveWrites(SmaliDir(baseStorePath, appId, apkContent), decompileTempDir, hash, tree, filePaths);
              smaliStore == old(smaliStore) + saved.writes && finished == saved.finished
    {
      if |filePaths| == 0 {
        assert SaveWrites(SmaliDir(baseStorePath, appId, apkContent), decompileTempDir, hash, tree, filePaths).writes == map[];
        return true;
      }
      var dir := SmaliDir(baseStorePath, appId, apkContent);
      ghost var start := smaliStore;
      var k := 0;
      assert filePaths[..0] == [];
      while k < |filePaths|
        invariant 0 <= k <= |filePaths|
        invariant SaveWrites(dir, decompileTempDir, hash, tree, filePaths[..k]).finished
        invariant smaliStore == start + SaveWrites(dir, decompileTempDir, hash, tree, filePaths[..k]).writes
      {
        var path := filePaths[k];
        var code := ReadFile(tree, path);
        if code.None? {
          SaveStops(dir, decompileTempDir, hash, tree, filePaths, k);
          return false;
        }
        SaveStep(dir, decompileTempDir, hash, tree, filePaths, k);
        var logical := LogicalName(decompileTempDir, path);
        var storePath := ArtifactPath(dir, decompileTempDir, hash, path);
        ghost var written := SaveWrites(dir, decompileTempDir, hash, tree, filePaths[..k]).writes;
        smaliStore := smaliStore[storePath := Body(logical, code.value)];
        UnionUpdate(start, written, storePath, Body(logical, code.value));
        k := k + 1;
      }
      assert filePaths[..k] == filePaths;
      return true;
    }

    /** `complete_analysis`: under the lock, the rows whose `app_id` is
        `appId` are marked analysed with the app's store directory and the
        verdict. */
    method CompleteAnalysis(appId: string, present: bool)
      modifies this`results
      ensures results == Committed(old(results), appId, ResultsPath(baseStorePath, appId), present)
    {
      var storePath := Join(baseStorePath, appId);
      var k := 0;
      while k < |results|
        invariant 0 <= k <= |results| == |old(results)|
        invariant forall m :: 0 <= m < k ==> results[m] == Committed(old(results), appId, storePath, present)[m]
        invariant forall m :: k <= m < |results| ==> results[m] == old(results)[m]
      {
        if results[k].appId == appId {
          results := results[k := results[k].(apktoolAnalysed := true, resultsPath := Some(storePath),
                                              webviewPermissions := Some(present))];
        }
        k := k + 1;
      }
    }

    /** `delete_decompiled_apk`: remove the app's whole decompile directory. */
    method DeleteDecompiledApk(appId: string)
      modifies this`removed
      ensures removed == old(removed) + [appId]
    {
      removed := removed + [appId];
    }

    /** The `try` block of `webview_id_pipeline` after decompiling: scan
        the tree, store the matches, commit; a step that raises skips the
        ones after it. */
    method AnalyseTree(appId: string, apkPath: string, tree: Option<seq<WalkDir>>)
      modifies this`results, this`smaliStore
      ensures var o := TreeOutcome(SmaliDir(baseStorePath, appId, apkPath), decompileTempDir, hash, tree);
              && smaliStore == old(smaliStore) + o.writes
              && (o.verdict.None? ==> results == old(results))
              && (o.verdict.Some? ==>
                    results == Committed(old(results), appId, ResultsPath(baseStorePath, appId), o.verdict.value))
    {
      if tree.Some? {
        var matches := SearchStringInFiles(tree.value);
        if matches.Some? {
          var finished := SaveSmaliCode(appId, matches.value, apkPath, Flatten(tree.value));
          if finished {
            CompleteAnalysis(appId, |matches.value| > 0);
          }
        }
      }
    }

    /** `webview_id_pipeline`: decompile, scan, store, commit; any failure
        skips the remaining steps and the commit; the cleanup runs in every
        case. The row's own analysed flag is not consulted. */
    method WebviewIdPipeline(app: AppRecord, apktool: Decompiler)
      modifies this`results, this`smaliStore, this`removed
      ensures var o := JobOutcome(decompileTempDir, baseStorePath, hash, app, apktool);
              && smaliStore == old(smaliStore) + o.writes
              && (o.verdict.None? ==> results == old(results))
              && (o.verdict.Some? ==>
                    results == Committed(old(results), app.appId, ResultsPath(baseStorePath, app.appId), o.verdict.value))
      ensures removed == old(removed) + [app.appId]
    {
      var apkPath := ApkFile(app.apkPath);
      var dir, tree := DecompileApk(app.appId, apkPath, apktool);
      AnalyseTree(app.appId, apkPath, tree);
      DeleteDecompiledApk(app.appId);
    }

    /** The table and the store after the jobs of `rows`, started from
        `table` and `store`. */
    ghost predicate AfterJobs(table: seq<AppRecord>, store: map<string, string>, rows: seq<AppRecord>, job: Job)
      reads this
    {
      results == CommitAll(baseStorePath, table, RunVerdicts(rows, job))
      && smaliStore == store + RunWrites(rows, job)
    }

    /** One job of a run, with the bookkeeping of the jobs before it carried
        across. */
    method RunJob(apps: seq<AppRecord>, i: nat, apktool: Decompiler, ghost table: seq<AppRecord>,
                  ghost store: map<string, string>)
      requires i < |apps|
      requires AfterJobs(table, store, apps[..i], Pipeline(decompileTempDir, baseStorePath, hash, apktool))
      modifies this`results, this`smaliStore, this`removed
      ensures AfterJobs(table, store, apps[..i + 1], Pipeline(decompileTempDir, baseStorePath, hash, apktool))
      ensures removed == old(removed) + [apps[i].appId]
    {
      ghost var job := Pipeline(decompileTempDir, baseStorePath, hash, apktool);
      RunStep(baseStorePath, apps, i, job, table);
      RunWritesStep(apps, i, job);
      UnionAssoc(store, RunWrites(apps[..i], job), job(apps[i]).writes);
      WebviewIdPipeline(apps[i], apktool);
    }

    /** The jobs of `apps`, one after another. */
    method RunJobs(apps: seq<AppRecord>, apktool: Decompiler)
      modifies this`results, this`smaliStore, this`removed
      ensures AfterJobs(old(results), old(smaliStore), apps, Pipeline(decompileTempDir, baseStorePath, hash, apktool))
      ensures removed == old(removed) + AppIds(apps)
    {
      ghost var job := Pipeline(decompileTempDir, baseStorePath, hash, apktool);
      ghost var table := results;
      ghost var store := smaliStore;
      ghost var done := removed;
      var i := 0;
      assert apps[..0] == [];
      while i < |apps|
        invariant 0 <= i <= |apps|
        invariant AfterJobs(table, store, apps[..i], job)
        invariant removed == done + AppIds(apps[..i])
      {
        ghost var before := removed;
        RunJob(apps, i, apktool, table, store);
        AppIdsStep(done, apps, i, before, removed);
        i := i + 1;
      }
      assert apps[..i] == apps;
      assert AfterJobs(table, store, apps, job);
    }

    /** `main`: read the pending rows once, then run the pipeline for each
        of them; the lock makes every commit atomic, so the run is modelled
        as the jobs one after another. */
    method Run(apktool: Decompiler)
      modifies this`results, this`smaliStore, this`removed
      ensures var job := Pipeline(decompileTempDir, baseStorePath, hash, apktool);
              var pending := SetupAnalysis(old(results));
              results == CommitAll(baseStorePath, old(results), RunVerdicts(pending, job))
              && smaliStore == old(smaliStore) + RunWrites(pending, job)
      ensures removed == old(removed) + AppIds(SetupAnalysis(old(results)))
    {
      var apps := SetupAnalysis(results);
      RunJobs(apps, apktool);
    }
  }
}
