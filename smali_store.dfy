/** Where and how the WebView checker stores a matched smali file: the store
    directory `join(base_store_path, app_id, <archive dir name>)`, the
    logical name (the path with the decompile directory taken out), the file
    name `hash(logical name) + ".smali"`, and the body `logical name`,
    a blank line, then the code. The hash is a parameter (SHA-256 in hex). */
module SmaliStore {
  import opened Text
  import opened Paths
  import opened Seqs
  import opened SmaliScan

  type Hash = string -> string

  /** `path.replace(temp_dir + "/", "")`: every occurrence of the decompile
      directory followed by `/` is deleted, not only a leading one. */
  function LogicalName(tempDir: string, path: string): (r: string)
    ensures |r| <= |path|
  {
    RemoveAll(path, tempDir + "/")
  }

  /** A path directly under the decompile directory loses exactly that
      prefix when the rest does not repeat it. */
  lemma LogicalNameOfChild(tempDir: string, rest: string)
    requires !Contains(rest, tempDir + "/")
    ensures LogicalName(tempDir, tempDir + "/" + rest) == rest
  {
    assert tempDir + "/" + rest == (tempDir + "/") + rest;
    StripLeading(tempDir + "/", rest);
  }

  /** In general the logical name keeps the path up to the first occurrence
      of the decompile directory followed by `/`, drops that occurrence, and
      treats the rest of the path the same way. */
  lemma LogicalNameAt(tempDir: string, path: string, i: nat)
    requires OccursAt(path, tempDir + "/", i)
    requires forall k :: 0 <= k < i ==> !OccursAt(path, tempDir + "/", k)
    ensures LogicalName(tempDir, path) == path[..i] + LogicalName(tempDir, path[i + |tempDir| + 1..])
  {
    RemoveAllAt(path, tempDir + "/", i);
  }

  /** The replacement is not anchored: with directory `t`, the path `t/at/b`
      has the logical name `ab`, where stripping the prefix would give
      `at/b`. */
  lemma LogicalNameNotAnchored()
    ensures LogicalName("t", "t/at/b") == "ab"
  {
    var pat := "t/";
    assert StartsWith("t/at/b", pat);
    assert "t/at/b"[2..] == "at/b";
    assert "at/b"[..2][0] == 'a';
    assert "at/b"[1..] == "t/b";
    assert StartsWith("t/b", pat);
    assert "t/b"[2..] == "b";
    assert "b"[1..] == [];
    assert RemoveAll("b", pat) == "b";
    assert RemoveAll("at/b", pat) == "a" + RemoveAll("t/b", pat);
  }

  /** The stored file's name depends on the logical name only. */
  function ArtifactName(hash: Hash, logical: string): (r: string)
    ensures EndsWith(r, ".smali")
  {
    hash(logical) + ".smali"
  }

  /** The stored file's text: the logical name, a blank line, the code. */
  function Body(logical: string, code: string): (r: string)
    ensures StartsWith(r, logical) && EndsWith(r, code)
    ensures |r| == |logical| + 2 + |code| && r[|logical|] == '\n' && r[|logical| + 1] == '\n'
  {
    logical + "\n\n" + code
  }

  /** Index of the first blank line separator `"\n\n"` in `s`, or -1. */
  function FirstBreak(s: string): (k: int)
    ensures -1 <= k
    ensures k >= 0 ==> k + 1 < |s| && s[k] == '\n' && s[k + 1] == '\n'
    decreases |s|
  {
    if |s| < 2 then -1
    else if s[0] == '\n' && s[1] == '\n' then 0
    else
      var k := FirstBreak(s[1..]);
      if k < 0 then -1 else k + 1
  }

  /** Reading a stored file back: the name before the first blank line and
      the code after it. */
  function SplitBody(body: string): Option<(string, string)>
  {
    var k := FirstBreak(body);
    if k < 0 then None else Some((body[..k], body[k + 2..]))
  }

  lemma {:induction false} FirstBreakAfterName(logical: string, code: string)
    requires '\n' !in logical
    ensures FirstBreak(logical + "\n\n" + code) == |logical|
    decreases |logical|
  {
    var s := logical + "\n\n" + code;
    if logical != [] {
      assert s[1..] == logical[1..] + "\n\n" + code;
      FirstBreakAfterName(logical[1..], code);
    }
  }

  /** A stored file names its source: when the logical name has no newline,
      the body splits back into the logical name and the code. */
  lemma BodyRoundTrip(logical: string, code: string)
    requires '\n' !in logical
    ensures SplitBody(Body(logical, code)) == Some((logical, code))
  {
    FirstBreakAfterName(logical, code);
    var s := Body(logical, code);
    assert s[..|logical|] == logical;
    assert s[|logical| + 2..] == code;
  }

  /** `join(base_store_path, app_id, dir)`, with the archive's directory name. */
  function SmaliDir(baseStorePath: string, appId: string, apkContent: string): string
  {
    Join(Join(baseStorePath, appId), DirName(apkContent))
  }

  /** Where the copy of the smali file at `path` is stored. */
  function ArtifactPath(dir: string, tempDir: string, hash: Hash, path: string): string
  {
    Join(dir, ArtifactName(hash, LogicalName(tempDir, path)))
  }

  /** What reading `path` gives: the content of the walked file at that
      path (the last one listed, should the listing repeat it), or `None`
      when there is no such file or it is not readable as UTF-8. */
  function ReadFile(tree: seq<Walked>, path: string): Option<string>
  {
    if tree == [] then None
    else if tree[|tree| - 1].path == path then tree[|tree| - 1].content
    else ReadFile(tree[..|tree| - 1], path)
  }

  /** The files written and whether the loop got to the end. */
  datatype Saved = Saved(writes: map<string, string>, finished: bool)

  /** The files `save_smali_code` writes for `paths`, in order, later writes
      replacing earlier ones at the same name, and whether it got to the
      end: a read that raises stops it, keeping what was written before. */
  function SaveWrites(dir: string, tempDir: string, hash: Hash, tree: seq<Walked>, paths: seq<string>)
    : (s: Saved)
    ensures s.finished ==> forall k :: 0 <= k < |paths| ==> ReadFile(tree, paths[k]).Some?
  {
    if paths == [] then Saved(map[], true)
    else
      var before := SaveWrites(dir, tempDir, hash, tree, paths[..|paths| - 1]);
      var p := paths[|paths| - 1];
      if !before.finished then before
      else match ReadFile(tree, p)
        case None => Saved(before.writes, false)
        case Some(code) => Saved(before.writes[ArtifactPath(dir, tempDir, hash, p) := Body(LogicalName(tempDir, p), code)], true)
  }

  /** `save_smali_code` gets to the end exactly when every path is readable. */
  lemma {:induction false} SaveFinishes(dir: string, tempDir: string, hash: Hash, tree: seq<Walked>, paths: seq<string>)
    ensures SaveWrites(dir, tempDir, hash, tree, paths).finished
            <==> forall k :: 0 <= k < |paths| ==> ReadFile(tree, paths[k]).Some?
    decreases |paths|
  {
    if paths != [] {
      var init := paths[..|paths| - 1];
      SaveFinishes(dir, tempDir, hash, tree, init);
      assert forall k :: 0 <= k < |init| ==> init[k] == paths[k];
    }
  }

  /** `text` stored at `key` is the copy of one of `paths`: `key` is that
      path's artifact path and `text` its logical name and code. */
  predicate CopyOf(dir: string, tempDir: string, hash: Hash, tree: seq<Walked>, paths: seq<string>,
                   key: string, text: string)
  {
    exists k :: 0 <= k < |paths| && ReadFile(tree, paths[k]).Some?
                && key == ArtifactPath(dir, tempDir, hash, paths[k])
                && text == Body(LogicalName(tempDir, paths[k]), ReadFile(tree, paths[k]).value)
  }

  lemma CopyOfExtend(dir: string, tempDir: string, hash: Hash, tree: seq<Walked>, init: seq<string>,
                     p: string, key: string, text: string)
    requires CopyOf(dir, tempDir, hash, tree, init, key, text)
    ensures CopyOf(dir, tempDir, hash, tree, init + [p], key, text)
  {
    var k :| 0 <= k < |init| && ReadFile(tree, init[k]).Some?
             && key == ArtifactPath(dir, tempDir, hash, init[k])
             && text == Body(LogicalName(tempDir, init[k]), ReadFile(tree, init[k]).value);
    assert (init + [p])[k] == init[k];
  }

  lemma CopyOfLast(dir: string, tempDir: string, hash: Hash, tree: seq<Walked>, init: seq<string>, p: string)
    requires ReadFile(tree, p).Some?
    ensures CopyOf(dir, tempDir, hash, tree, init + [p], ArtifactPath(dir, tempDir, hash, p),
                   Body(LogicalName(tempDir, p), ReadFile(tree, p).value))
  {
    assert (init + [p])[|init|] == p;
  }

  /** Every stored file sits at the artifact path of a saved path and holds
      that path's logical name, a blank line and its code. */
  lemma {:induction false} SaveWritesSound(dir: string, tempDir: string, hash: Hash, tree: seq<Walked>, paths: seq<string>)
    ensures forall key :: key in SaveWrites(dir, tempDir, hash, tree, paths).writes ==>
              CopyOf(dir, tempDir, hash, tree, paths, key, SaveWrites(dir, tempDir, hash, tree, paths).writes[key])
    decreases |paths|
  {
    if paths != [] {
      var init := paths[..|paths| - 1];
      var p := paths[|paths| - 1];
      assert paths == init + [p];
      SaveWritesSound(dir, tempDir, hash, tree, init);
      var before := SaveWrites(dir, tempDir, hash, tree, init);
      var m := SaveWrites(dir, tempDir, hash, tree, paths).writes;
      forall key | key in m
        ensures CopyOf(dir, tempDir, hash, tree, paths, key, m[key])
      {
        if before.finished && ReadFile(tree, p).Some? && key == ArtifactPath(dir, tempDir, hash, p) {
          CopyOfLast(dir, tempDir, hash, tree, init, p);
        } else {
          CopyOfExtend(dir, tempDir, hash, tree, init, p, key, before.writes[key]);
        }
      }
    }
  }

  /** When it gets to the end, every path has its stored file. */
  lemma {:induction false} SaveWritesComplete(dir: string, tempDir: string, hash: Hash, tree: seq<Walked>, paths: seq<string>)
    ensures var saved := SaveWrites(dir, tempDir, hash, tree, paths);
            saved.finished ==> forall k :: 0 <= k < |paths| ==> ArtifactPath(dir, tempDir, hash, paths[k]) in saved.writes
    decreases |paths|
  {
    if paths != [] {
      var init := paths[..|paths| - 1];
      SaveWritesComplete(dir, tempDir, hash, tree, init);
      assert forall k :: 0 <= k < |init| ==> init[k] == paths[k];
    }
  }

  /** A readable `n`-th path adds its copy to the files written so far. */
  lemma SaveStep(dir: string, tempDir: string, hash: Hash, tree: seq<Walked>, paths: seq<string>, n: nat)
    requires n < |paths| && ReadFile(tree, paths[n]).Some?
    requires SaveWrites(dir, tempDir, hash, tree, paths[..n]).finished
    ensures SaveWrites(dir, tempDir, hash, tree, paths[..n + 1])
            == Saved(SaveWrites(dir, tempDir, hash, tree, paths[..n]).writes[ArtifactPath(dir, tempDir, hash, paths[n])
                       := Body(LogicalName(tempDir, paths[n]), ReadFile(tree, paths[n]).value)], true)
  {
    assert paths[..n + 1][..n] == paths[..n];
  }

  /** A read that raises at the `n`-th path stops the copying with the
      files written before it. */
  lemma SaveStops(dir: string, tempDir: string, hash: Hash, tree: seq<Walked>, paths: seq<string>, n: nat)
    requires n < |paths| && ReadFile(tree, paths[n]).None?
    requires SaveWrites(dir, tempDir, hash, tree, paths[..n]).finished
    ensures SaveWrites(dir, tempDir, hash, tree, paths)
            == Saved(SaveWrites(dir, tempDir, hash, tree, paths[..n]).writes, false)
  {
    assert paths[..n + 1][..n] == paths[..n];
    StoppedStaysStopped(dir, tempDir, hash, tree, paths, n + 1);
  }

  /** Once stopped, later paths change nothing: the remaining files are not
      read and not written. */
  lemma {:induction false} StoppedStaysStopped(dir: string, tempDir: string, hash: Hash, tree: seq<Walked>,
                                               paths: seq<string>, n: nat)
    requires n <= |paths| && !SaveWrites(dir, tempDir, hash, tree, paths[..n]).finished
    ensures SaveWrites(dir, tempDir, hash, tree, paths) == SaveWrites(dir, tempDir, hash, tree, paths[..n])
    decreases |paths|
  {
    if n == |paths| {
      assert paths[..n] == paths;
    } else {
      var init := paths[..|paths| - 1];
      assert init[..n] == paths[..n];
      StoppedStaysStopped(dir, tempDir, hash, tree, init, n);
    }
  }
}
