/** The marker scan of the WebView checker: walk the decompiled tree, read
    every `.smali` file, and keep, in walk order, the paths of those whose
    text mentions one of the four WebView permission hooks. The tree is
    given as the directories `os.walk` visits, each with its files; a file's
    content is `None` when it cannot be read as UTF-8, which makes the
    read raise. */
module SmaliScan {
  import opened Text
  import opened Paths
  import opened Seqs

  /** The callbacks and classes through which a WebView grants geolocation
      or other permissions to web content. */
  const Markers: seq<string> := [
    "onGeolocationPermissionsShowPrompt",
    "Landroid/webkit/GeolocationPermissions$Callback;",
    "onPermissionRequest",
    "Landroid/webkit/PermissionRequest;"
  ]

  datatype SourceFile = SourceFile(name: string, content: Option<string>)

  /** One step of the walk: a directory and the files directly in it. */
  datatype WalkDir = WalkDir(root: string, files: seq<SourceFile>)

  /** A walked file with the path the scan opens: `join(root, name)`. */
  datatype Walked = Walked(path: string, name: string, content: Option<string>)

  function WalkedOf(root: string, f: SourceFile): Walked
  {
    Walked(Join(root, f.name), f.name, f.content)
  }

  /** The files of one directory, in the order the walk lists them. */
  function Entries(root: string, files: seq<SourceFile>): (r: seq<Walked>)
    ensures |r| == |files|
    ensures forall k :: 0 <= k < |files| ==> r[k] == WalkedOf(root, files[k])
  {
    if files == [] then []
    else Entries(root, files[..|files| - 1]) + [WalkedOf(root, files[|files| - 1])]
  }

  /** Every file of the walk, directory after directory. */
  function Flatten(walk: seq<WalkDir>): seq<Walked>
  {
    if walk == [] then []
    else
      var d := walk[|walk| - 1];
      Flatten(walk[..|walk| - 1]) + Entries(d.root, d.files)
  }

  predicate IsSmali(name: string)
  {
    EndsWith(name, ".smali")
  }

  predicate HasMarker(content: string)
  {
    exists m :: m in Markers && Contains(content, m)
  }

  /** A file the scan keeps: a readable `.smali` file mentioning a marker. */
  predicate IsMatch(w: Walked)
  {
    IsSmali(w.name) && w.content.Some? && HasMarker(w.content.value)
  }

  /** No `.smali` file of the walk makes the read raise. */
  predicate Clean(es: seq<Walked>)
  {
    forall w :: w in es && IsSmali(w.name) ==> w.content.Some?
  }

  function MatchOf(w: Walked): Option<string>
  {
    if IsMatch(w) then Some(w.path) else None
  }

  function PathOf(w: Walked): string
  {
    w.path
  }

  /** The paths the scan appends, in walk order. */
  function MatchPaths(es: seq<Walked>): seq<string>
  {
    Collect(es, MatchOf)
  }

  /** `search_string_in_files`: the match list, or `None` when reading some
      `.smali` file raised. */
  function Scan(walk: seq<WalkDir>): (r: Option<seq<string>>)
    ensures r.Some? <==> Clean(Flatten(walk))
    ensures r.Some? ==> |r.value| <= |Flatten(walk)|
  {
    var es := Flatten(walk);
    MatchPathsIff(es);
    if Clean(es) then Some(MatchPaths(es)) else None
  }

  /** Soundness and completeness: a path is in the match list exactly when
      some walked `.smali` file at that path is readable and mentions a
      marker; so no file that is not `.smali` is ever listed. */
  lemma MatchPathsIff(es: seq<Walked>)
    ensures forall p :: p in MatchPaths(es) <==> exists k :: 0 <= k < |es| && IsMatch(es[k]) && es[k].path == p
    ensures |MatchPaths(es)| <= |es|
  {
    CollectSpec(es, MatchOf);
    forall p | p in MatchPaths(es)
      ensures exists k :: 0 <= k < |es| && IsMatch(es[k]) && es[k].path == p
    {
      var k :| 0 <= k < |es| && MatchOf(es[k]) == Some(p);
    }
    forall p | exists k :: 0 <= k < |es| && IsMatch(es[k]) && es[k].path == p
      ensures p in MatchPaths(es)
    {
      var k :| 0 <= k < |es| && IsMatch(es[k]) && es[k].path == p;
      assert MatchOf(es[k]) == Some(p);
    }
  }

  /** Some walked file is a readable `.smali` file mentioning a marker. */
  predicate AnyMatch(es: seq<Walked>)
  {
    exists k :: 0 <= k < |es| && IsMatch(es[k])
  }

  /** Some file matches exactly when the match list is not empty. */
  lemma MatchesExist(es: seq<Walked>)
    ensures MatchPaths(es) != [] <==> AnyMatch(es)
  {
    MatchPathsIff(es);
    if MatchPaths(es) != [] {
      assert MatchPaths(es)[0] in MatchPaths(es);
    }
    if exists k :: 0 <= k < |es| && IsMatch(es[k]) {
      var k :| 0 <= k < |es| && IsMatch(es[k]);
      assert es[k].path in MatchPaths(es);
    }
  }

  /** Order: the match list is an order-preserving subsequence of the walked
      paths. */
  lemma MatchPathsOrdered(es: seq<Walked>)
    ensures IsSubsequence(MatchPaths(es), Map(es, PathOf))
  {
    CollectIsSubsequence(es, MatchOf, PathOf);
  }

  /** A tree without any `.smali` file yields no match. */
  lemma {:induction false} NoSmaliNoMatch(es: seq<Walked>)
    requires forall k :: 0 <= k < |es| ==> !IsSmali(es[k].name)
    ensures Clean(es) && MatchPaths(es) == []
    decreases |es|
  {
    if es != [] {
      NoSmaliNoMatch(es[..|es| - 1]);
    }
  }

  lemma EntriesStep(root: string, files: seq<SourceFile>, j: nat)
    requires j < |files|
    ensures Entries(root, files[..j + 1]) == Entries(root, files[..j]) + [WalkedOf(root, files[j])]
  {
    assert files[..j + 1][..j] == files[..j];
  }

  lemma FlattenStep(walk: seq<WalkDir>, i: nat)
    requires i < |walk|
    ensures Flatten(walk[..i + 1]) == Flatten(walk[..i]) + Entries(walk[i].root, walk[i].files)
  {
    assert walk[..i + 1][..i] == walk[..i];
  }

  /** One more walked file: the scan keeps it exactly when it matches, and
      the walk stays clean exactly when it is not an unreadable `.smali`
      file. */
  lemma ScanStep(es: seq<Walked>, w: Walked)
    ensures MatchPaths(es + [w]) == MatchPaths(es) + (if IsMatch(w) then [w.path] else [])
    ensures Clean(es + [w]) <==> Clean(es) && (IsSmali(w.name) ==> w.content.Some?)
  {
    assert (es + [w])[..|es|] == es;
    assert forall x :: x in es + [w] <==> x in es || x == w;
  }

  /** Every file of the walk is among the flattened entries. */
  lemma {:induction false} InFlatten(walk: seq<WalkDir>, i: nat, j: nat)
    requires i < |walk| && j < |walk[i].files|
    ensures WalkedOf(walk[i].root, walk[i].files[j]) in Flatten(walk)
    decreases |walk|
  {
    var init := walk[..|walk| - 1];
    var d := walk[|walk| - 1];
    if i < |walk| - 1 {
      InFlatten(init, i, j);
    } else {
      assert Entries(d.root, d.files)[j] == WalkedOf(d.root, d.files[j]);
    }
  }

  /** `search_string_in_files`: nested loops over the walk's directories and
      their files; a `.smali` file is read and its path appended when it
      mentions a marker; a read that raises ends the scan. */
  method SearchStringInFiles(walk: seq<WalkDir>) returns (r: Option<seq<string>>)
    ensures r == Scan(walk)
  {
    var matches: seq<string> := [];
    var i := 0;
    assert walk[..0] == [];
    while i < |walk|
      invariant 0 <= i <= |walk|
      invariant Clean(Flatten(walk[..i])) && matches == MatchPaths(Flatten(walk[..i]))
    {
      var dir := walk[i];
      ghost var done := Flatten(walk[..i]);
      var j := 0;
      assert dir.files[..0] == [];
      assert done + Entries(dir.root, dir.files[..0]) == done;
      while j < |dir.files|
        invariant 0 <= j <= |dir.files|
        invariant Clean(done + Entries(dir.root, dir.files[..j]))
        invariant matches == MatchPaths(done + Entries(dir.root, dir.files[..j]))
      {
        var w := WalkedOf(dir.root, dir.files[j]);
        ghost var before := done + Entries(dir.root, dir.files[..j]);
        EntriesStep(dir.root, dir.files, j);
        assert done + Entries(dir.root, dir.files[..j + 1]) == before + [w];
        ScanStep(before, w);
        if IsSmali(w.name) {
          if w.content.None? {
            InFlatten(walk, i, j);
            return None;
          }
          if IsMatch(w) {
            matches := matches + [w.path];
          }
        }
        j := j + 1;
      }
      assert dir.files[..j] == dir.files;
      FlattenStep(walk, i);
      i := i + 1;
    }
    assert walk[..i] == walk;
    r := Some(matches);
  }
}
