/** POSIX path handling as the scripts use it: `os.path.join` with two
    arguments, the `split("/")[-1]` / `rsplit(".", 1)` / `"_".join` transform
    that turns an archive path into a directory name, and "lies under" for the
    recursive removal of a directory. Paths are taken as already absolute and
    normalised. */
module Paths {
  import opened Text

  /** `os.path.join(a, b)`: an absolute `b` replaces `a`; otherwise `b` is
      appended after a separator unless `a` is empty or already ends in one. */
  function Join(a: string, b: string): (r: string)
    ensures |b| <= |r| <= |a| + 1 + |b|
    ensures !StartsWith(b, "/") ==> |a| + |b| <= |r|
  {
    if StartsWith(b, "/") then b
    else if a == [] || EndsWith(a, "/") then a + b
    else a + "/" + b
  }

  /** The joined path ends with `b`; it is `b` when `b` is absolute, and
      otherwise extends `a`. */
  lemma JoinSpec(a: string, b: string)
    ensures EndsWith(Join(a, b), b)
    ensures StartsWith(b, "/") ==> Join(a, b) == b
    ensures !StartsWith(b, "/") ==> StartsWith(Join(a, b), a)
  {
    var r := Join(a, b);
    if !StartsWith(b, "/") {
      if a == [] || EndsWith(a, "/") {
        assert r[|r| - |b|..] == b;
        assert r[..|a|] == a;
      } else {
        assert r == a + ("/" + b);
        assert r[|r| - |b|..] == b;
        assert r[..|a|] == a;
      }
    }
  }

  /** `s.split("/")[-1]`: the part of `s` after its last `/`, or all of `s`
      when it has none. */
  function LastComponent(s: string): (c: string)
    ensures '/' !in c
  {
    if s == [] then []
    else if s[|s| - 1] == '/' then []
    else LastComponent(s[..|s| - 1]) + [s[|s| - 1]]
  }

  /** The last component is the end of `s`, and unless it is all of `s`
      a `/` stands right before it. */
  lemma {:induction false} LastComponentIsSuffix(s: string)
    ensures var c := LastComponent(s);
            && |c| <= |s| && s[|s| - |c|..] == c
            && (|c| < |s| ==> s[|s| - |c| - 1] == '/')
    decreases |s|
  {
    if s != [] && s[|s| - 1] != '/' {
      var init := s[..|s| - 1];
      LastComponentIsSuffix(init);
      var c := LastComponent(init);
      assert s[|s| - |c| - 1..] == init[|init| - |c|..] + [s[|s| - 1]];
      if |c| < |init| {
        assert s[|s| - |c| - 2] == init[|init| - |c| - 1];
      }
    }
  }

  /** A component without `/` is what `split("/")[-1]` finds after the last
      separator. */
  lemma {:induction false} LastComponentAfterSlash(a: string, b: string)
    requires '/' !in b
    ensures LastComponent(a + "/" + b) == b
    decreases |b|
  {
    if b == [] {
    } else {
      var s := a + "/" + b;
      assert s[..|s| - 1] == a + "/" + b[..|b| - 1];
      LastComponentAfterSlash(a, b[..|b| - 1]);
      assert b == b[..|b| - 1] + [b[|b| - 1]];
    }
  }

  /** A path without `/` is its own last component. */
  lemma {:induction false} LastComponentOfPlain(s: string)
    requires '/' !in s
    ensures LastComponent(s) == s
    decreases |s|
  {
    if s != [] {
      assert s[..|s| - 1] + [s[|s| - 1]] == s;
      LastComponentOfPlain(s[..|s| - 1]);
    }
  }

  /** Index of the last `.` in `c`, or -1 when there is none: where
      `rsplit(".", 1)` cuts. */
  function LastDot(c: string): (k: int)
    ensures -1 <= k < |c|
    ensures k >= 0 ==> c[k] == '.'
    ensures forall i :: k < i < |c| ==> c[i] != '.'
  {
    if c == [] then -1
    else if c[|c| - 1] == '.' then |c| - 1
    else LastDot(c[..|c| - 1])
  }

  /** `"_".join(c.rsplit(".", 1))`. */
  function ReplaceLastDot(c: string): (r: string)
    ensures |r| == |c|
  {
    var k := LastDot(c);
    if k < 0 then c else c[..k] + "_" + c[k + 1..]
  }

  /** The last `.` of `c` becomes `_` and every other character is kept; a
      component without `.` is unchanged. */
  lemma ReplaceLastDotSpec(c: string)
    ensures forall i :: 0 <= i < |c| ==> ReplaceLastDot(c)[i] == if i == LastDot(c) then '_' else c[i]
  {
    var k := LastDot(c);
    if k >= 0 {
      ReplaceAt(c, k);
    }
  }

  /** Replacing the character at `k` by `_` keeps every other character. */
  lemma ReplaceAt(c: string, k: nat)
    requires k < |c|
    ensures forall i :: 0 <= i < |c| ==> (c[..k] + "_" + c[k + 1..])[i] == if i == k then '_' else c[i]
  {
    var r := c[..k] + "_" + c[k + 1..];
    forall i | 0 <= i < |c|
      ensures r[i] == if i == k then '_' else c[i]
    {
      if i < k {
        assert r[i] == c[..k][i];
      } else if i > k {
        assert r[i] == c[k + 1..][i - k - 1];
      }
    }
  }

  /** A component without `.` is left as it is. */
  lemma ReplaceLastDotNoDot(c: string)
    requires '.' !in c
    ensures ReplaceLastDot(c) == c
  {
  }

  /** Replacing the last dot of `x + "." + y`, where `y` has no dot, gives
      `x + "_" + y`. */
  lemma ReplaceLastDotOf(x: string, y: string)
    requires '.' !in y
    ensures ReplaceLastDot(x + "." + y) == x + "_" + y
  {
    var c := x + "." + y;
    var k := LastDot(c);
    ReplaceLastDotSpec(c);
    assert c[|x|] == '.';
    assert forall i :: |x| < i < |c| ==> c[i] == y[i - |x| - 1];
    assert k == |x|;
    assert c[..k] == x && c[k + 1..] == y;
  }

  /** The directory name the decompiler writes to and the smali store uses:
      the last path component with its last `.` replaced by `_`. */
  function DirName(path: string): (d: string)
    ensures '/' !in d
    ensures |d| == |LastComponent(path)|
  {
    var c := LastComponent(path);
    var d := ReplaceLastDot(c);
    ReplaceLastDotSpec(c);
    assert forall i :: 0 <= i < |d| ==> d[i] == c[i] || d[i] == '_';
    d
  }

  /** The last component of `join(a, b)` is `b` when `b` is a plain name. */
  lemma LastComponentOfJoin(a: string, b: string)
    requires b != [] && '/' !in b
    ensures LastComponent(Join(a, b)) == b
  {
    assert b[..1][0] == b[0];
    if a == [] {
      assert Join(a, b) == b;
      LastComponentOfPlain(b);
    } else if EndsWith(a, "/") {
      var a' := a[..|a| - 1];
      assert a == a' + "/";
      assert Join(a, b) == a' + "/" + b;
      LastComponentAfterSlash(a', b);
    } else {
      LastComponentAfterSlash(a, b);
    }
  }

  lemma BaseApkDirName()
    ensures ReplaceLastDot("base.apk") == "base_apk"
  {
    assert "base.apk" == "base" + "." + "apk";
    ReplaceLastDotOf("base", "apk");
  }

  /** Every job hands the decompiler `join(apk_path, "base.apk")`, so its
      working directory and its smali store directory are always `base_apk`. */
  lemma DirNameOfBaseApk(apkPath: string)
    ensures DirName(Join(apkPath, "base.apk")) == "base_apk"
  {
    LastComponentOfJoin(apkPath, "base.apk");
    BaseApkDirName();
  }

  /** `d` is `root` itself or lies in the tree below it, so that
      `shutil.rmtree(root)` removes it. */
  predicate IsWithin(d: string, root: string)
  {
    d == root || StartsWith(d, Join(root, ""))
  }

  /** Joining a relative name onto `root` stays within `root`. */
  lemma JoinIsWithin(root: string, name: string)
    requires !StartsWith(name, "/")
    ensures IsWithin(Join(root, name), root)
  {
    assert !StartsWith("", "/");
    if root == [] || EndsWith(root, "/") {
      assert Join(root, "") == root;
    } else {
      assert Join(root, "") == root + "/";
      assert Join(root, name) == (root + "/") + name;
    }
  }
}
