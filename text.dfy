/** Character classes and string operations of Python that the two scripts rely on:
    the `\s` class of the `re` module, `str.startswith`, `str.endswith`, the
    substring test `sub in s` and `str.replace(pat, "")`. */
module Text {

  /** Python's `\s` in a `str` pattern: exactly the characters for which
      `str.isspace()` holds. */
  predicate IsSpace(c: char)
    ensures (c == ' ' || c == '\t' || c == '\n' || c == '\r') ==> IsSpace(c)
    ensures IsSpace(c) ==> !('!' <= c <= '~')
  {
    ('\t' <= c <= '\r') || ('\U{1C}' <= c <= ' ') || c == '\U{85}' || c == '\U{A0}'
    || c == '\U{1680}' || ('\U{2000}' <= c <= '\U{200A}') || c == '\U{2028}'
    || c == '\U{2029}' || c == '\U{202F}' || c == '\U{205F}' || c == '\U{3000}'
  }

  predicate AllSpace(s: string)
  {
    forall i :: 0 <= i < |s| ==> IsSpace(s[i])
  }

  predicate NoSpace(s: string)
  {
    forall i :: 0 <= i < |s| ==> !IsSpace(s[i])
  }

  predicate StartsWith(s: string, prefix: string)
  {
    |prefix| <= |s| && s[..|prefix|] == prefix
  }

  predicate EndsWith(s: string, suffix: string)
  {
    |suffix| <= |s| && s[|s| - |suffix|..] == suffix
  }

  /** How far a greedy `\s+` reaches from the start of `s`: the length of the
      longest prefix of whitespace. */
  function SpaceRun(s: string): (n: nat)
    ensures n <= |s| && AllSpace(s[..n])
    ensures n < |s| ==> !IsSpace(s[n])
    decreases |s|
  {
    if s == [] || !IsSpace(s[0]) then 0
    else
      var n := 1 + SpaceRun(s[1..]);
      assert s[..n] == [s[0]] + s[1..][..n - 1];
      n
  }

  /** How far a greedy `\S+` reaches from the start of `s`: the length of the
      longest prefix without whitespace. */
  function TokenRun(s: string): (n: nat)
    ensures n <= |s| && NoSpace(s[..n])
    ensures n < |s| ==> IsSpace(s[n])
    decreases |s|
  {
    if s == [] || IsSpace(s[0]) then 0
    else
      var n := 1 + TokenRun(s[1..]);
      assert s[..n] == [s[0]] + s[1..][..n - 1];
      n
  }

  /** A whitespace prefix followed by a non-whitespace character is exactly
      what `SpaceRun` measures. */
  lemma SpaceRunIs(s: string, k: nat)
    requires k < |s| && AllSpace(s[..k]) && !IsSpace(s[k])
    ensures SpaceRun(s) == k
  {
  }

  /** A prefix without whitespace is never longer than what `TokenRun` measures. */
  lemma {:induction false} TokenRunCovers(s: string, k: nat)
    requires k <= |s| && NoSpace(s[..k])
    ensures k <= TokenRun(s)
    decreases k
  {
    if k > 0 {
      assert s[..k][0] == s[0];
      assert s[1..][..k - 1] == s[..k][1..];
      TokenRunCovers(s[1..], k - 1);
    }
  }

  predicate OccursAt(s: string, sub: string, i: int)
  {
    0 <= i && i + |sub| <= |s| && s[i..i + |sub|] == sub
  }

  /** Python's `sub in s`. */
  predicate Contains(s: string, sub: string)
    ensures sub == [] ==> Contains(s, sub)
    ensures Contains(s, sub) ==> |sub| <= |s|
    decreases |s|
  {
    StartsWith(s, sub) || (s != [] && Contains(s[1..], sub))
  }

  /** `Contains` holds exactly when `sub` occurs at some position of `s`. */
  lemma {:induction false} ContainsIff(s: string, sub: string)
    ensures Contains(s, sub) <==> exists i :: OccursAt(s, sub, i)
    decreases |s|
  {
    if StartsWith(s, sub) {
      assert OccursAt(s, sub, 0);
    } else if s == [] {
    } else {
      ContainsIff(s[1..], sub);
      if Contains(s[1..], sub) {
        var i :| OccursAt(s[1..], sub, i);
        assert s[i + 1..i + 1 + |sub|] == s[1..][i..i + |sub|];
        assert OccursAt(s, sub, i + 1);
      }
      if exists i :: OccursAt(s, sub, i) {
        var i :| OccursAt(s, sub, i);
        assert s[1..][i - 1..i - 1 + |sub|] == s[i..i + |sub|];
        assert OccursAt(s[1..], sub, i - 1);
      }
    }
  }

  /** Python's `s.replace(pat, "")`: scanning left to right, every
      non-overlapping occurrence of `pat` is deleted (an empty `pat` changes
      nothing). */
  function RemoveAll(s: string, pat: string): (r: string)
    ensures |r| <= |s|
    decreases |s|
  {
    if pat == [] || s == [] then s
    else if StartsWith(s, pat) then RemoveAll(s[|pat|..], pat)
    else [s[0]] + RemoveAll(s[1..], pat)
  }

  /** A string in which `pat` does not occur is left as it is. */
  lemma {:induction false} RemoveAllAbsent(s: string, pat: string)
    requires !Contains(s, pat)
    ensures RemoveAll(s, pat) == s
    decreases |s|
  {
    if pat != [] && s != [] {
      RemoveAllAbsent(s[1..], pat);
    }
  }

  /** `replace` cuts at the first occurrence: everything before it is kept,
      the occurrence is dropped, and the rest is processed the same way. */
  lemma {:induction false} RemoveAllAt(s: string, pat: string, i: nat)
    requires pat != [] && OccursAt(s, pat, i)
    requires forall k :: 0 <= k < i ==> !OccursAt(s, pat, k)
    ensures RemoveAll(s, pat) == s[..i] + RemoveAll(s[i + |pat|..], pat)
    decreases i
  {
    if i == 0 {
      RemoveAllLeading(s, pat);
    } else {
      var t := s[1..];
      var rest := RemoveAll(s[i + |pat|..], pat);
      NoEarlierShift(s, pat, i);
      RemoveAllAt(t, pat, i - 1);
      KeptPrefix(s, i, |pat|, rest);
      calc {
        RemoveAll(s, pat);
        { RemoveAllSkip(s, pat); }
        [s[0]] + RemoveAll(t, pat);
        [s[0]] + (t[..i - 1] + rest);
        s[..i] + rest;
      }
    }
  }

  /** Dropping the first character moves the first occurrence one to the
      left. */
  lemma NoEarlierShift(s: string, pat: string, i: nat)
    requires 0 < i && OccursAt(s, pat, i)
    requires forall k :: 0 <= k < i ==> !OccursAt(s, pat, k)
    ensures OccursAt(s[1..], pat, i - 1)
    ensures forall k :: 0 <= k < i - 1 ==> !OccursAt(s[1..], pat, k)
  {
    OccursShift(s, pat, i - 1);
    forall k | 0 <= k < i - 1
      ensures !OccursAt(s[1..], pat, k)
    {
      OccursShift(s, pat, k);
    }
  }

  /** An occurrence at the start is dropped. */
  lemma RemoveAllLeading(s: string, pat: string)
    requires pat != [] && OccursAt(s, pat, 0)
    ensures RemoveAll(s, pat) == s[..0] + RemoveAll(s[|pat|..], pat)
  {
    OccursAtStart(s, pat);
  }

  /** A first character that starts no occurrence is kept. */
  lemma RemoveAllSkip(s: string, pat: string)
    requires pat != [] && s != [] && !OccursAt(s, pat, 0)
    ensures RemoveAll(s, pat) == [s[0]] + RemoveAll(s[1..], pat)
  {
    OccursAtStart(s, pat);
  }

  lemma KeptPrefix(s: string, i: nat, n: nat, rest: string)
    requires 0 < i && i + n <= |s|
    ensures [s[0]] + (s[1..][..i - 1] + rest) == s[..i] + rest
    ensures s[1..][i - 1 + n..] == s[i + n..]
  {
    assert s[..i] == [s[0]] + s[1..][..i - 1];
  }

  lemma OccursAtStart(s: string, pat: string)
    ensures OccursAt(s, pat, 0) <==> StartsWith(s, pat)
  {
    if |pat| <= |s| {
      assert s[0..|pat|] == s[..|pat|];
    }
  }

  lemma OccursShift(s: string, pat: string, k: nat)
    requires s != []
    ensures OccursAt(s[1..], pat, k) <==> OccursAt(s, pat, k + 1)
  {
    if k + 1 + |pat| <= |s| {
      assert s[1..][k..k + |pat|] == s[k + 1..k + 1 + |pat|];
    }
  }

  /** A leading occurrence of `pat` is removed; when `pat` occurs nowhere in
      the remainder, the remainder is the result. */
  lemma StripLeading(pat: string, rest: string)
    requires pat != [] && !Contains(rest, pat)
    ensures RemoveAll(pat + rest, pat) == rest
  {
    assert StartsWith(pat + rest, pat);
    assert (pat + rest)[|pat|..] == rest;
    RemoveAllAbsent(rest, pat);
  }
}
