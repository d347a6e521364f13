/** Reading the output of `aapt dump permissions`: the two line-anchored
    patterns `package:\s+(\S+)` and `uses-permission:\s+name='(\S+)'`
    (applied with `re.match`, i.e. anchored at the start of the line only),
    written as hand-made matchers, and the loop that runs both over every
    line. */
module PermissionDump {
  import opened Text
  import opened Seqs

  const PackagePrefix: string := "package:"
  const PermissionPrefix: string := "uses-permission:"
  const NameOpen: string := "name='"

  // ---------------------------------------------------------------------
  // `package:\s+(\S+)`

  /** The group `re.match(r"package:\s+(\S+)", line)` captures, if it matches. */
  function MatchPackage(line: string): (t: Option<string>)
    ensures t.Some? ==> t.value != [] && NoSpace(t.value)
  {
    if !StartsWith(line, PackagePrefix) then None
    else
      var rest := line[|PackagePrefix|..];
      var w := SpaceRun(rest);
      var n := TokenRun(rest[w..]);
      if w == 0 || n == 0 then None
      else
        assert rest[w..][..n] == rest[w..w + n];
        Some(rest[w..w + n])
  }

  /** One way the pattern can match `line`: its whitespace run is
      `line[8..i]` and its group is `line[i..j]`. */
  ghost predicate PackageParse(line: string, i: int, j: int)
  {
    StartsWith(line, PackagePrefix) && |PackagePrefix| < i < j <= |line|
    && AllSpace(line[|PackagePrefix|..i]) && NoSpace(line[i..j])
  }

  /** `MatchPackage` agrees with the pattern: it fails exactly when the
      pattern cannot match, and when it succeeds its token is a group the
      pattern can capture, extended as far as `\S+` greedily reaches. */
  lemma PackageMatchSpec(line: string)
    ensures MatchPackage(line).None? <==> !exists i, j :: PackageParse(line, i, j)
    ensures MatchPackage(line).Some? ==>
              exists i, j :: PackageParse(line, i, j) && line[i..j] == MatchPackage(line).value
                             && (j == |line| || IsSpace(line[j]))
  {
    var P := |PackagePrefix|;
    if StartsWith(line, PackagePrefix) {
      var rest := line[P..];
      var w := SpaceRun(rest);
      var n := TokenRun(rest[w..]);
      if w != 0 && n != 0 {
        var i, j := P + w, P + w + n;
        assert line[P..i] == rest[..w];
        assert line[i..j] == rest[w..][..n];
        assert j < |line| ==> line[j] == rest[w..][n];
        assert PackageParse(line, i, j);
      } else if exists i, j :: PackageParse(line, i, j) {
        var i, j :| PackageParse(line, i, j);
        assert rest[..i - P] == line[P..i];
        assert rest[i - P] == line[i..j][0];
        SpaceRunIs(rest, i - P);
      }
    }
  }

  // ---------------------------------------------------------------------
  // `uses-permission:\s+name='(\S+)'`

  /** The largest `k` with `1 <= k < |s|` and `s[k] == '\''`, or 0 when there
      is none: where a greedy `(\S+)'` gives back characters to until a quote
      follows the group. */
  function LastQuote(s: string): (k: nat)
    ensures k == 0 || (k < |s| && s[k] == '\'')
    ensures forall m :: k < m < |s| ==> s[m] != '\''
  {
    if |s| <= 1 then 0
    else if s[|s| - 1] == '\'' then |s| - 1
    else LastQuote(s[..|s| - 1])
  }

  /** The group `re.match(r"uses-permission:\s+name='(\S+)'", line)`
      captures, if it matches. */
  function MatchPermission(line: string): (p: Option<string>)
    ensures p.Some? ==> p.value != [] && NoSpace(p.value)
  {
    if !StartsWith(line, PermissionPrefix) then None
    else
      var rest := line[|PermissionPrefix|..];
      var w := SpaceRun(rest);
      if w == 0 || !StartsWith(rest[w..], NameOpen) then None
      else
        var value := rest[w + |NameOpen|..];
        var n := TokenRun(value);
        var q := LastQuote(value[..n]);
        if q == 0 then None
        else
          assert value[..q] == value[..n][..q];
          Some(value[..q])
  }

  /** One way the pattern can match `line`: whitespace `line[16..i]`, then
      `name='`, then the group up to `j`, then the quote at `j`. */
  ghost predicate PermissionParse(line: string, i: int, j: int)
  {
    StartsWith(line, PermissionPrefix) && |PermissionPrefix| < i
    && i + |NameOpen| < j < |line|
    && AllSpace(line[|PermissionPrefix|..i]) && line[i..i + |NameOpen|] == NameOpen
    && NoSpace(line[i + |NameOpen|..j]) && line[j] == '\''
  }

  /** In any match, the whitespace run ends where `SpaceRun` says, since
      `name='` starts with a non-whitespace character. */
  lemma PermissionParseStart(line: string, i: int, j: int)
    requires PermissionParse(line, i, j)
    ensures i == |PermissionPrefix| + SpaceRun(line[|PermissionPrefix|..])
  {
    var P := |PermissionPrefix|;
    var rest := line[P..];
    assert rest[..i - P] == line[P..i];
    assert rest[i - P] == line[i..i + |NameOpen|][0];
    SpaceRunIs(rest, i - P);
  }

  /** When `MatchPermission` succeeds, its value is a group the pattern
      captures on `line`. */
  lemma PermissionMatchSound(line: string)
    requires MatchPermission(line).Some?
    ensures exists i, j :: PermissionParse(line, i, j)
                           && line[i + |NameOpen|..j] == MatchPermission(line).value
  {
    var P, N := |PermissionPrefix|, |NameOpen|;
    var rest := line[P..];
    var w := SpaceRun(rest);
    var value := rest[w + N..];
    var n := TokenRun(value);
    var q := LastQuote(value[..n]);
    assert MatchPermission(line).value == value[..q];
    ParseFound(line, w, n, q);
  }

  /** The run lengths `MatchPermission` measures describe a parse of `line`
      whose group is `value[..q]`. */
  lemma ParseFound(line: string, w: nat, n: nat, q: nat)
    requires StartsWith(line, PermissionPrefix)
    requires var rest := line[|PermissionPrefix|..];
             0 < w && w == SpaceRun(rest) && StartsWith(rest[w..], NameOpen)
    requires var value := line[|PermissionPrefix| + w + |NameOpen|..];
             n == TokenRun(value) && 0 < q == LastQuote(value[..n])
    ensures var i, j := |PermissionPrefix| + w, |PermissionPrefix| + w + |NameOpen| + q;
            PermissionParse(line, i, j) && line[i + |NameOpen|..j] == line[i + |NameOpen|..][..q]
  {
    var P, N := |PermissionPrefix|, |NameOpen|;
    var rest := line[P..];
    var value := line[P + w + N..];
    var i, j := P + w, P + w + N + q;
    assert line[P..i] == rest[..w];
    assert line[i..i + N] == rest[w..][..N];
    assert line[i + N..j] == value[..q] == value[..n][..q];
    assert line[j] == value[q] == value[..n][q];
  }

  /** The closing quote of any match lies inside the whitespace-free run
      that follows `name='`, past its first character. */
  lemma QuoteInToken(line: string, i: int, j: int)
    requires PermissionParse(line, i, j)
    ensures var value := line[i + |NameOpen|..];
            1 <= j - i - |NameOpen| < TokenRun(value) && value[j - i - |NameOpen|] == '\''
  {
    var N := |NameOpen|;
    var value := line[i + N..];
    assert value[..j - i - N] == line[i + N..j];
    TokenRunCovers(value, j - i - N);
    assert value[j - i - N] == line[j];
  }

  /** Whenever the pattern can match `line`, `MatchPermission` succeeds, and
      its value is at least as long as any group the pattern can capture
      (greedy `\S+`). */
  lemma PermissionMatchComplete(line: string, i: int, j: int)
    requires PermissionParse(line, i, j)
    ensures MatchPermission(line).Some?
    ensures forall j' :: PermissionParse(line, i, j') ==> j' - i - |NameOpen| <= |MatchPermission(line).value|
  {
    var P, N := |PermissionPrefix|, |NameOpen|;
    PermissionParseStart(line, i, j);
    var value := line[i + N..];
    var n := TokenRun(value);
    // every match's quote lies inside the token, at an index the
    // backtracking reaches
    forall j' | PermissionParse(line, i, j')
      ensures 1 <= j' - i - N < n && value[..n][j' - i - N] == '\''
    {
      QuoteInToken(line, i, j');
    }
    assert LastQuote(value[..n]) >= j - i - N;
    MatchPermissionAt(line, i);
  }

  /** Once the whitespace run ends at `i` and `name='` follows, the match is
      decided by the last quote inside the token after it. */
  lemma MatchPermissionAt(line: string, i: int)
    requires StartsWith(line, PermissionPrefix) && |PermissionPrefix| < i
    requires i == |PermissionPrefix| + SpaceRun(line[|PermissionPrefix|..])
    requires i + |NameOpen| <= |line| && line[i..i + |NameOpen|] == NameOpen
    ensures var value := line[i + |NameOpen|..];
            var q := LastQuote(value[..TokenRun(value)]);
            MatchPermission(line) == if q == 0 then None else Some(value[..q])
  {
    var P, N := |PermissionPrefix|, |NameOpen|;
    var rest := line[P..];
    assert rest[i - P..][..N] == line[i..i + N];
    assert rest[i - P + N..] == line[i + N..];
  }

  /** `MatchPermission` agrees with the pattern: it fails exactly when the
      pattern cannot match, and when it succeeds its value is the longest
      group the pattern can capture. */
  lemma PermissionMatchSpec(line: string)
    ensures MatchPermission(line).None? <==> !exists i, j :: PermissionParse(line, i, j)
    ensures MatchPermission(line).Some? ==>
              exists i, j :: PermissionParse(line, i, j)
                             && line[i + |NameOpen|..j] == MatchPermission(line).value
                             && forall j' :: PermissionParse(line, i, j') ==> j' <= j
  {
    if MatchPermission(line).Some? {
      PermissionMatchSound(line);
      var i, j :| PermissionParse(line, i, j) && line[i + |NameOpen|..j] == MatchPermission(line).value;
      PermissionMatchComplete(line, i, j);
    } else if exists i, j :: PermissionParse(line, i, j) {
      var i, j :| PermissionParse(line, i, j);
      PermissionMatchComplete(line, i, j);
    }
  }

  // ---------------------------------------------------------------------
  // The loop over the lines of the dump

  /** The value `app_id` holds after the loop: the token of the LAST line
      that matches the package pattern (each match overwrites it). */
  function LastPackage(lines: seq<string>): (r: Option<string>)
    ensures r.Some? ==> r.value != [] && NoSpace(r.value)
  {
    LastSomeSpec(lines, MatchPackage);
    LastSome(lines, MatchPackage)
  }

  /** The list `permissions` holds after the loop: the group of every line
      that matches the permission pattern, in line order. */
  function Permissions(lines: seq<string>): (r: seq<string>)
    ensures |r| <= |lines|
    ensures forall p :: p in r ==> p != [] && NoSpace(p)
  {
    CollectSpec(lines, MatchPermission);
    Collect(lines, MatchPermission)
  }

  /** A package line is never a permission line, and the other way round:
      the two prefixes differ in their first character. */
  lemma PrefixesExclusive(line: string)
    ensures StartsWith(line, PackagePrefix) ==> MatchPermission(line).None?
    ensures StartsWith(line, PermissionPrefix) ==> MatchPackage(line).None?
  {
    if StartsWith(line, PackagePrefix) {
      assert line[..|PackagePrefix|][0] == line[0] == 'p';
    }
    if StartsWith(line, PermissionPrefix) {
      assert line[..|PermissionPrefix|][0] == line[0] == 'u';
    }
  }

  /** A `package:` line in the form the tool prints, one space and then a
      token, yields that token. */
  lemma MatchPackageLine(token: string)
    requires token != [] && NoSpace(token)
    ensures MatchPackage(PackagePrefix + " " + token) == Some(token)
  {
    var line := PackagePrefix + " " + token;
    assert line[..|PackagePrefix|] == PackagePrefix;
    var rest := line[|PackagePrefix|..];
    assert rest == " " + token;
    SpaceRunIs(rest, 1);
    assert rest[1..] == token && token[..|token|] == token;
    TokenRunCovers(token, |token|);
    assert rest[1..1 + |token|] == token;
  }

  /** A `uses-permission:` line in the form the tool prints yields the quoted
      name. */
  lemma MatchPermissionLine(name: string)
    requires name != [] && NoSpace(name)
    ensures MatchPermission(PermissionPrefix + " " + NameOpen + name + "'") == Some(name)
  {
    var line := PermissionPrefix + " " + NameOpen + name + "'";
    var rest := line[|PermissionPrefix|..];
    assert rest == " " + NameOpen + name + "'";
    SpaceRunIs(rest, 1);
    assert rest[1..][..|NameOpen|] == NameOpen;
    var value := rest[1 + |NameOpen|..];
    assert value == name + "'";
    QuotedToken(name);
  }

  /** A token closed by a quote is one whitespace-free run whose last quote
      is the closing one. */
  lemma QuotedToken(name: string)
    requires name != [] && NoSpace(name)
    ensures var value := name + "'";
            TokenRun(value) == |value| && LastQuote(value[..|value|]) == |name|
            && value[..|name|] == name
  {
    var value := name + "'";
    assert value[..|value|] == value;
    TokenRunCovers(value, |value|);
  }

  /** A package line in the tool's form is no permission line. */
  lemma PackageLineOnly(token: string)
    requires token != [] && NoSpace(token)
    ensures var line := PackagePrefix + " " + token;
            MatchPackage(line) == Some(token) && MatchPermission(line).None?
  {
    var line := PackagePrefix + " " + token;
    MatchPackageLine(token);
    assert line[..|PackagePrefix|] == PackagePrefix;
    PrefixesExclusive(line);
  }

  /** A permission line in the tool's form is no package line. */
  lemma PermissionLineOnly(name: string)
    requires name != [] && NoSpace(name)
    ensures var line := PermissionPrefix + " " + NameOpen + name + "'";
            MatchPermission(line) == Some(name) && MatchPackage(line).None?
  {
    var line := PermissionPrefix + " " + NameOpen + name + "'";
    MatchPermissionLine(name);
    assert line[..|PermissionPrefix|] == PermissionPrefix;
    PrefixesExclusive(line);
  }

  /** Both patterns are anchored at the start of the line: a line matches
      only if it begins with the pattern's keyword, so a line with leading
      whitespace or other text matches neither. */
  lemma PatternsAnchored(line: string)
    ensures MatchPackage(line).Some? ==> StartsWith(line, PackagePrefix) && line[0] == 'p'
    ensures MatchPermission(line).Some? ==> StartsWith(line, PermissionPrefix) && line[0] == 'u'
  {
    if MatchPackage(line).Some? {
      assert line[..|PackagePrefix|][0] == 'p';
    }
    if MatchPermission(line).Some? {
      assert line[..|PermissionPrefix|][0] == 'u';
    }
  }

  /** Dump-level reading of the loop's result: the id is absent exactly when
      no line matches the package pattern, and every listed permission is a
      non-empty run without whitespace taken from a matching line. */
  lemma DumpSpec(lines: seq<string>)
    ensures LastPackage(lines).None? <==>
              forall k :: 0 <= k < |lines| ==> !exists i, j :: PackageParse(lines[k], i, j)
    ensures forall p :: p in Permissions(lines) ==>
              p != [] && NoSpace(p)
              && exists k :: 0 <= k < |lines| && MatchPermission(lines[k]) == Some(p)
  {
    LastSomeSpec(lines, MatchPackage);
    CollectSpec(lines, MatchPermission);
    forall k | 0 <= k < |lines| {
      PackageMatchSpec(lines[k]);
    }
    forall p | p in Permissions(lines)
      ensures p != [] && NoSpace(p)
    {
      var k :| 0 <= k < |lines| && MatchPermission(lines[k]) == Some(p);
    }
  }

  /** What each line of the example dump below yields on its own. */
  lemma ExampleLines(l0: string, l1: string, l2: string)
    requires l0 == PackagePrefix + " " + "a.b"
    requires l1 == PermissionPrefix + " " + NameOpen + "X" + "'"
    requires l2 == PermissionPrefix + " " + NameOpen + "Y" + "'"
    ensures MatchPackage(l0) == Some("a.b") && MatchPermission(l0).None?
    ensures MatchPackage(l1).None? && MatchPermission(l1) == Some("X")
    ensures MatchPackage(l2).None? && MatchPermission(l2) == Some("Y")
  {
    PackageLineOnly("a.b");
    PermissionLineOnly("X");
    PermissionLineOnly("Y");
  }

  /** The example of a dump with a package line and three permission lines,
      one repeated: the id is the package token and the list keeps all three
      entries in order. */
  lemma ThreePermissionsExample(l0: string, l1: string, l2: string)
    requires l0 == PackagePrefix + " " + "a.b"
    requires l1 == PermissionPrefix + " " + NameOpen + "X" + "'"
    requires l2 == PermissionPrefix + " " + NameOpen + "Y" + "'"
    ensures LastPackage([l0, l1, l2, l1]) == Some("a.b")
    ensures Permissions([l0, l1, l2, l1]) == ["X", "Y", "X"]
  {
    ExampleLines(l0, l1, l2);
    PackageThenThree(l0, l1, l2, "a.b", "X", "Y");
  }

  /** A package line followed by three permission lines: the id is the
      package's and all three permissions are listed, in order. */
  lemma PackageThenThree(l0: string, l1: string, l2: string, pkg: string, x: string, y: string)
    requires MatchPackage(l0) == Some(pkg) && MatchPermission(l0).None?
    requires MatchPackage(l1).None? && MatchPermission(l1) == Some(x)
    requires MatchPackage(l2).None? && MatchPermission(l2) == Some(y)
    ensures LastPackage([l0, l1, l2, l1]) == Some(pkg)
    ensures Permissions([l0, l1, l2, l1]) == [x, y, x]
  {
    var lines := [l0, l1, l2, l1];
    assert lines[..3] == [l0, l1, l2] && [l0, l1, l2][..2] == [l0, l1] && [l0, l1][..1] == [l0];
    PackageOfFour(lines, pkg);
    PermissionsOfFour(lines, x, y);
  }

  lemma PackageOfFour(lines: seq<string>, pkg: string)
    requires |lines| == 4 && MatchPackage(lines[0]) == Some(pkg)
    requires MatchPackage(lines[1]).None? && MatchPackage(lines[2]).None? && MatchPackage(lines[3]).None?
    ensures LastPackage(lines) == Some(pkg)
  {
    assert lines[..3][..2][..1] == [lines[0]];
    assert lines[..3][..2] == lines[..2];
    assert LastSome(lines[..1], MatchPackage) == Some(pkg);
    assert LastSome(lines[..2], MatchPackage) == Some(pkg);
    assert LastSome(lines[..3], MatchPackage) == Some(pkg);
  }

  lemma PermissionsOfFour(lines: seq<string>, x: string, y: string)
    requires |lines| == 4 && MatchPermission(lines[0]).None?
    requires MatchPermission(lines[1]) == Some(x) && MatchPermission(lines[2]) == Some(y)
    requires MatchPermission(lines[3]) == Some(x)
    ensures Permissions(lines) == [x, y, x]
  {
    assert lines[..3][..2][..1] == [lines[0]];
    assert lines[..3][..2] == lines[..2];
    assert Collect(lines[..1], MatchPermission) == [];
    assert Collect(lines[..2], MatchPermission) == [x];
    assert Collect(lines[..3], MatchPermission) == [x, y];
  }

  /** The loop of `extract_permissions`: every line is tried against both
      patterns; a package match overwrites the id, a permission match is
      appended. */
  method ExtractFromDump(lines: seq<string>) returns (appId: Option<string>, permissions: seq<string>)
    ensures appId == LastPackage(lines)
    ensures permissions == Permissions(lines)
  {
    appId := None;
    permissions := [];
    var i := 0;
    while i < |lines|
      invariant 0 <= i <= |lines|
      invariant appId == LastPackage(lines[..i])
      invariant permissions == Permissions(lines[..i])
    {
      var line := lines[i];
      assert lines[..i + 1][..i] == lines[..i];
      var packageMatch := MatchPackage(line);
      if packageMatch.Some? {
        appId := packageMatch;
      }
      var permissionMatch := MatchPermission(line);
      if permissionMatch.Some? {
        permissions := permissions + [permissionMatch.value];
      }
      i := i + 1;
    }
    assert lines[..i] == lines;
  }
}
