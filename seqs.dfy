/** Generic sequence operations shared by both scripts: the optional value,
    an order-preserving filter (a boolean row mask), "is a subsequence of",
    and an in-place update of every element that satisfies a condition
    (`df.loc[mask, column] = value`). */
module Seqs {

  datatype Option<T> = None | Some(value: T)

  /** The elements of `s` that satisfy `p`, in their order in `s`. */
  function Filter<T(==)>(s: seq<T>, p: T -> bool): (r: seq<T>)
    ensures |r| <= |s|
    ensures forall x :: x in r ==> x in s && p(x)
    ensures forall x :: x in s && p(x) ==> x in r
  {
    if s == [] then []
    else (if p(s[0]) then [s[0]] else []) + Filter(s[1..], p)
  }

  /** The filter keeps every element that satisfies `p` as often as it
      occurs in `s`, and drops every other. */
  lemma {:induction false} FilterCount<T>(s: seq<T>, p: T -> bool)
    ensures forall x :: multiset(Filter(s, p))[x] == if p(x) then multiset(s)[x] else 0
    decreases |s|
  {
    if s != [] {
      FilterCount(s[1..], p);
      assert s == [s[0]] + s[1..];
      assert multiset(s) == multiset([s[0]]) + multiset(s[1..]);
    }
  }

  /** `xs` can be obtained from `ys` by deleting elements: same elements, same
      relative order. */
  predicate IsSubsequence<T(==)>(xs: seq<T>, ys: seq<T>)
    decreases |ys|
  {
    if xs == [] then true
    else if ys == [] then false
    else (xs[0] == ys[0] && IsSubsequence(xs[1..], ys[1..])) || IsSubsequence(xs, ys[1..])
  }

  lemma {:induction false} FilterIsSubsequence<T>(s: seq<T>, p: T -> bool)
    ensures IsSubsequence(Filter(s, p), s)
    decreases |s|
  {
    if s != [] {
      FilterIsSubsequence(s[1..], p);
      if p(s[0]) {
        assert Filter(s, p)[1..] == Filter(s[1..], p);
      } else {
        assert Filter(s, p) == Filter(s[1..], p);
      }
    }
  }

  /** Every element that satisfies `p` passed through `u`; the others are
      kept. Length and order are those of `s`. */
  function UpdateWhere<T>(s: seq<T>, p: T -> bool, u: T -> T): (r: seq<T>)
    ensures |r| == |s|
    ensures forall k :: 0 <= k < |s| ==> r[k] == if p(s[k]) then u(s[k]) else s[k]
  {
    if s == [] then []
    else [if p(s[0]) then u(s[0]) else s[0]] + UpdateWhere(s[1..], p, u)
  }

  /** The value of the last element of `s` on which `m` succeeds: what a
      variable holds after a loop that overwrites it on every success. */
  function LastSome<A, B>(s: seq<A>, m: A -> Option<B>): Option<B>
  {
    if s == [] then None
    else
      match m(s[|s| - 1])
      case Some(v) => Some(v)
      case None => LastSome(s[..|s| - 1], m)
  }

  /** `LastSome` is the value of an element after which `m` fails
      everywhere; it is absent exactly when `m` fails on every element. */
  lemma {:induction false} LastSomeSpec<A, B>(s: seq<A>, m: A -> Option<B>)
    ensures LastSome(s, m).None? <==> forall k :: 0 <= k < |s| ==> m(s[k]).None?
    ensures LastSome(s, m).Some? ==>
              exists k :: 0 <= k < |s| && m(s[k]) == LastSome(s, m)
                          && forall n :: k < n < |s| ==> m(s[n]).None?
    decreases |s|
  {
    if s != [] {
      var init := s[..|s| - 1];
      LastSomeSpec(init, m);
      if m(s[|s| - 1]).None? {
        assert forall k :: 0 <= k < |init| ==> init[k] == s[k];
      }
    }
  }

  /** The values `m` yields, element by element, in order: what a list holds
      after a loop that appends on every success. */
  function Collect<A, B>(s: seq<A>, m: A -> Option<B>): seq<B>
  {
    if s == [] then []
    else
      Collect(s[..|s| - 1], m) + match m(s[|s| - 1]) { case Some(v) => [v] case None => [] }
  }

  /** Collecting over a concatenation concatenates the collected lists, so
      the list has one entry per successful element, in order, repeats
      kept. */
  lemma {:induction false} CollectAppend<A, B>(a: seq<A>, b: seq<A>, m: A -> Option<B>)
    ensures Collect(a + b, m) == Collect(a, m) + Collect(b, m)
    decreases |b|
  {
    if b == [] {
      assert a + b == a;
    } else {
      var b' := b[..|b| - 1];
      assert (a + b)[..|a + b| - 1] == a + b';
      assert (a + b)[|a + b| - 1] == b[|b| - 1];
      CollectAppend(a, b', m);
    }
  }

  /** Every collected value comes from some element, and the value of every
      element on which `m` succeeds is collected. */
  lemma {:induction false} CollectSpec<A, B>(s: seq<A>, m: A -> Option<B>)
    ensures forall v :: v in Collect(s, m) <==> exists k :: 0 <= k < |s| && m(s[k]) == Some(v)
    ensures |Collect(s, m)| <= |s|
    decreases |s|
  {
    if s != [] {
      var init := s[..|s| - 1];
      CollectSpec(init, m);
      assert forall k :: 0 <= k < |init| ==> init[k] == s[k];
    }
  }

  /** `f` applied to every element, in order. */
  function Map<A, B>(s: seq<A>, f: A -> B): (r: seq<B>)
    ensures |r| == |s|
    ensures forall k :: 0 <= k < |s| ==> r[k] == f(s[k])
  {
    if s == [] then [] else Map(s[..|s| - 1], f) + [f(s[|s| - 1])]
  }

  /** Appending to the longer sequence keeps a subsequence a subsequence. */
  lemma {:induction false} SubsequenceSkip<T>(xs: seq<T>, ys: seq<T>, w: T)
    requires IsSubsequence(xs, ys)
    ensures IsSubsequence(xs, ys + [w])
    decreases |ys|
  {
    if xs != [] {
      assert (ys + [w])[1..] == ys[1..] + [w];
      if xs[0] == ys[0] && IsSubsequence(xs[1..], ys[1..]) {
        SubsequenceSkip(xs[1..], ys[1..], w);
      } else {
        SubsequenceSkip(xs, ys[1..], w);
      }
    }
  }

  /** Appending the same element to both keeps a subsequence a subsequence. */
  lemma {:induction false} SubsequenceSnoc<T>(xs: seq<T>, ys: seq<T>, v: T)
    requires IsSubsequence(xs, ys)
    ensures IsSubsequence(xs + [v], ys + [v])
    decreases |ys|
  {
    if ys == [] {
      assert xs == [];
      assert ([v] + [])[1..] == [];
    } else {
      assert (ys + [v])[1..] == ys[1..] + [v];
      if xs == [] {
        SubsequenceSnoc(xs, ys[1..], v);
      } else {
        assert (xs + [v])[1..] == xs[1..] + [v];
        if xs[0] == ys[0] && IsSubsequence(xs[1..], ys[1..]) {
          SubsequenceSnoc(xs[1..], ys[1..], v);
        } else {
          SubsequenceSnoc(xs, ys[1..], v);
        }
      }
    }
  }

  /** When every value `m` yields is the image of its element under `f`, the
      collected values are an order-preserving subsequence of the images. */
  lemma {:induction false} CollectIsSubsequence<A, B>(s: seq<A>, m: A -> Option<B>, f: A -> B)
    requires forall x :: m(x).Some? ==> m(x).value == f(x)
    ensures IsSubsequence(Collect(s, m), Map(s, f))
    decreases |s|
  {
    if s != [] {
      var init := s[..|s| - 1];
      var x := s[|s| - 1];
      CollectIsSubsequence(init, m, f);
      assert Map(s, f) == Map(init, f) + [f(x)];
      if m(x).Some? {
        assert Collect(s, m) == Collect(init, m) + [f(x)];
        SubsequenceSnoc(Collect(init, m), Map(init, f), f(x));
      } else {
        assert Collect(s, m) == Collect(init, m);
        SubsequenceSkip(Collect(init, m), Map(init, f), f(x));
      }
    }
  }
}
