/** Order-preserving selection over sequences: the model of `Array.prototype.filter`. */
module Sequences {

  /** `a` can be obtained from `b` by deleting elements, keeping the order of the rest. */
  ghost predicate IsSubsequence<T>(a: seq<T>, b: seq<T>)
    decreases |b|
  {
    || |a| == 0
    || (|b| > 0 && ((a[0] == b[0] && IsSubsequence(a[1..], b[1..])) || IsSubsequence(a, b[1..])))
  }

  /** The elements of `s` satisfying `p`, in their original order (`s.filter(p)`). */
  function Keep<T(==,!new)>(s: seq<T>, p: T -> bool): (r: seq<T>)
    ensures |r| <= |s|
    ensures forall x :: x in r <==> x in s && p(x)
  {
    if |s| == 0 then []
    else
      var rest := Keep(s[1..], p);
      if p(s[0]) then [s[0]] + rest else rest
  }

  /** `Keep` keeps every occurrence of a selected value and no occurrence of another. */
  lemma {:induction false} KeepCount<T(!new)>(s: seq<T>, p: T -> bool)
    ensures forall x :: multiset(Keep(s, p))[x] == if p(x) then multiset(s)[x] else 0
    decreases |s|
  {
    if |s| > 0 {
      assert s == [s[0]] + s[1..];
      KeepCount(s[1..], p);
    }
  }

  /** `Keep` preserves the relative order of what it keeps. */
  lemma {:induction false} KeepSubsequence<T(!new)>(s: seq<T>, p: T -> bool)
    ensures IsSubsequence(Keep(s, p), s)
    decreases |s|
  {
    if |s| > 0 {
      var rest := Keep(s[1..], p);
      KeepSubsequence(s[1..], p);
      if p(s[0]) {
        assert ([s[0]] + rest)[1..] == rest;
      }
    }
  }

  /** Unfolding `Keep` on a sequence given as head and tail. */
  lemma KeepCons<T(!new)>(x: T, t: seq<T>, p: T -> bool)
    ensures Keep([x] + t, p) == (if p(x) then [x] else []) + Keep(t, p)
  {
  }

  /** Filtering a concatenation filters each part. */
  lemma {:induction false} KeepConcat<T(!new)>(a: seq<T>, b: seq<T>, p: T -> bool)
    ensures Keep(a + b, p) == Keep(a, p) + Keep(b, p)
    decreases |a|
  {
    if |a| == 0 {
      assert a + b == b;
      assert Keep(a, p) == [];
    } else {
      var h := if p(a[0]) then [a[0]] else [];
      calc {
        Keep(a + b, p);
        { assert a + b == [a[0]] + (a[1..] + b);
          KeepCons(a[0], a[1..] + b, p); }
        h + Keep(a[1..] + b, p);
        { KeepConcat(a[1..], b, p); }
        h + (Keep(a[1..], p) + Keep(b, p));
        (h + Keep(a[1..], p)) + Keep(b, p);
        { assert a == [a[0]] + a[1..];
          KeepCons(a[0], a[1..], p); }
        Keep(a, p) + Keep(b, p);
      }
    }
  }

  /** Filtering twice by the same predicate is filtering once. */
  lemma {:induction false} KeepIdempotent<T(!new)>(s: seq<T>, p: T -> bool)
    ensures Keep(Keep(s, p), p) == Keep(s, p)
    decreases |s|
  {
    if |s| > 0 {
      assert s == [s[0]] + s[1..];
      KeepCons(s[0], s[1..], p);
      KeepIdempotent(s[1..], p);
      if p(s[0]) {
        KeepCons(s[0], Keep(s[1..], p), p);
      }
    }
  }

  lemma {:induction false} SubsequenceReflexive<T>(s: seq<T>)
    ensures IsSubsequence(s, s)
    decreases |s|
  {
    if |s| > 0 {
      SubsequenceReflexive(s[1..]);
    }
  }

  /** Being a subsequence is transitive. */
  lemma {:induction false} SubsequenceTransitive<T>(a: seq<T>, b: seq<T>, c: seq<T>)
    requires IsSubsequence(a, b) && IsSubsequence(b, c)
    ensures IsSubsequence(a, c)
    decreases |c|
  {
    if |a| > 0 {
      if b[0] == c[0] && IsSubsequence(b[1..], c[1..]) {
        if a[0] == b[0] && IsSubsequence(a[1..], b[1..]) {
          SubsequenceTransitive(a[1..], b[1..], c[1..]);
        } else {
          SubsequenceTransitive(a, b[1..], c[1..]);
        }
      } else {
        SubsequenceTransitive(a, b, c[1..]);
      }
    }
  }
}
