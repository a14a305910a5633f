/** Order-preserving selection from a sequence, used to state what the source's filters keep. */
module Sequences {

  /** `a` can be obtained from `b` by deleting elements, without reordering. */
  ghost predicate IsSubsequence<T>(a: seq<T>, b: seq<T>)
    decreases |b|
  {
    if |a| == 0 then true
    else if |b| == 0 then false
    else (a[0] == b[0] && IsSubsequence(a[1..], b[1..])) || IsSubsequence(a, b[1..])
  }

  /** Prepending the same head to both sides keeps the relation. */
  lemma ConsSubsequence<T>(x: T, a: seq<T>, b: seq<T>)
    requires IsSubsequence(a, b)
    ensures IsSubsequence([x] + a, [x] + b)
  {
    assert ([x] + a)[1..] == a;
    assert ([x] + b)[1..] == b;
  }

  /** Prepending a head to the larger side only keeps the relation. */
  lemma SkipSubsequence<T>(x: T, a: seq<T>, b: seq<T>)
    requires IsSubsequence(a, b)
    ensures IsSubsequence(a, [x] + b)
  {
    assert ([x] + b)[1..] == b;
  }

  /** An element of a subsequence is an element of the original. */
  lemma {:induction false} SubsequenceMember<T>(a: seq<T>, b: seq<T>, i: nat)
    requires IsSubsequence(a, b) && i < |a|
    ensures a[i] in b
    decreases |b|
  {
    if a[0] == b[0] && IsSubsequence(a[1..], b[1..]) {
      if i > 0 {
        SubsequenceMember(a[1..], b[1..], i - 1);
      }
    } else {
      SubsequenceMember(a, b[1..], i);
    }
  }

  /** Sequences with the same elements counted with multiplicity have the same members. */
  lemma SameElements<T>(a: seq<T>, b: seq<T>)
    requires multiset(a) == multiset(b)
    ensures forall x :: x in a <==> x in b
  {
    forall x
      ensures x in a <==> x in b
    {
      assert x in a <==> x in multiset(a);
      assert x in b <==> x in multiset(b);
    }
  }

  /** The number of elements satisfying `p`. */
  function Count<T>(s: seq<T>, p: T -> bool): (n: nat)
    ensures n <= |s|
  {
    if |s| == 0 then 0 else (if p(s[0]) then 1 else 0) + Count(s[1..], p)
  }

  lemma {:induction false} CountAppend<T>(a: seq<T>, b: seq<T>, p: T -> bool)
    ensures Count(a + b, p) == Count(a, p) + Count(b, p)
    decreases |a|
  {
    if |a| == 0 {
      assert a + b == b;
    } else {
      assert (a + b)[1..] == a[1..] + b;
      CountAppend(a[1..], b, p);
    }
  }

  lemma MultisetCancel<T>(a: multiset<T>, b: multiset<T>, x: T)
    requires a + multiset{x} == b + multiset{x}
    ensures a == b
  {
    forall y ensures a[y] == b[y] {
      assert (a + multiset{x})[y] == (b + multiset{x})[y];
    }
  }

  /** The count depends only on the elements, not on their order. */
  lemma {:induction false} CountPermutation<T>(a: seq<T>, b: seq<T>, p: T -> bool)
    requires multiset(a) == multiset(b)
    ensures Count(a, p) == Count(b, p)
    decreases |a|
  {
    if |a| == 0 {
      assert |b| == |multiset(b)| == 0;
    } else {
      var x := a[0];
      assert x in multiset(b);
      var j :| 0 <= j < |b| && b[j] == x;
      var rest := b[..j] + b[j + 1..];
      assert b == b[..j] + [x] + b[j + 1..];
      assert a == [x] + a[1..];
      calc {
        multiset(a[1..]) + multiset{x};
        multiset(a);
        multiset(b);
        multiset(b[..j]) + multiset{x} + multiset(b[j + 1..]);
        multiset(rest) + multiset{x};
      }
      MultisetCancel(multiset(a[1..]), multiset(rest), x);
      CountPermutation(a[1..], rest, p);
      CountAppend(b[..j] + [x], b[j + 1..], p);
      CountAppend(b[..j], [x], p);
      CountAppend(b[..j], b[j + 1..], p);
      assert Count([x], p) == (if p(x) then 1 else 0) by {
        assert [x][1..] == [];
      }
    }
  }

  /** `f` applied to every element, the results concatenated in order. */
  function FlatMap<T, U>(s: seq<T>, f: T -> seq<U>): seq<U>
  {
    if |s| == 0 then [] else FlatMap(s[..|s| - 1], f) + f(s[|s| - 1])
  }

  /** A non-empty sequence is its front followed by its last element. */
  lemma SplitLast<T>(s: seq<T>)
    requires |s| > 0
    ensures s == s[..|s| - 1] + [s[|s| - 1]]
  {
  }

  lemma CountSnoc<T>(s: seq<T>, x: T, p: T -> bool)
    ensures Count(s + [x], p) == Count(s, p) + (if p(x) then 1 else 0)
  {
    CountAppend(s, [x], p);
    assert [x][1..] == [];
  }

  lemma FlatMapSnoc<T, U>(s: seq<T>, x: T, f: T -> seq<U>)
    ensures FlatMap(s + [x], f) == FlatMap(s, f) + f(x)
  {
    assert (s + [x])[..|s|] == s;
  }

  /** A prefix of `a + b` no longer than `a` is a prefix of `a`. */
  lemma TakeAppendLeft<T>(a: seq<T>, b: seq<T>, k: nat)
    requires k <= |a|
    ensures (a + b)[..k] == a[..k]
  {
  }

  /** A prefix of `a + b` that covers `a` is `a` followed by a prefix of `b`. */
  lemma TakeAppendRight<T>(a: seq<T>, b: seq<T>, k: nat)
    requires k <= |b|
    ensures (a + b)[..|a| + k] == a + b[..k]
  {
  }

  /** Overwriting one element of `a` and appending `b` leaves `b` right after `a`'s length. */
  lemma UpdateThenAppend<T>(s: seq<T>, a: seq<T>, i: nat, x: T, b: seq<T>)
    requires i < |a| && s == a[i := x] + b
    ensures |s| == |a| + |b|
    ensures s[|a|..|a| + |b|] == b
  {
  }

  /** `b` sits between `a` and a final element. */
  lemma AppendBetween<T>(s: seq<T>, a: seq<T>, b: seq<T>, x: T)
    requires s == a + b + [x]
    ensures |s| == |a| + |b| + 1
    ensures s[|a|..|a| + |b|] == b
  {
  }

  /** `f` applied to every element, in order. */
  function Map<T, U>(s: seq<T>, f: T -> U): (r: seq<U>)
    ensures |r| == |s|
    ensures forall i :: 0 <= i < |s| ==> r[i] == f(s[i])
  {
    seq(|s|, i requires 0 <= i < |s| => f(s[i]))
  }

  lemma MapAppend<T, U>(a: seq<T>, b: seq<T>, f: T -> U)
    ensures Map(a + b, f) == Map(a, f) + Map(b, f)
  {
  }

  /** Mapping commutes with reordering. */
  lemma {:induction false} MapPermutation<T, U>(a: seq<T>, b: seq<T>, f: T -> U)
    requires multiset(a) == multiset(b)
    ensures multiset(Map(a, f)) == multiset(Map(b, f))
    decreases |a|
  {
    if |a| == 0 {
      assert |b| == |multiset(b)| == 0;
    } else {
      var x := a[0];
      assert x in multiset(b);
      var j :| 0 <= j < |b| && b[j] == x;
      var rest := b[..j] + b[j + 1..];
      assert b == b[..j] + [x] + b[j + 1..];
      assert a == [x] + a[1..];
      calc {
        multiset(a[1..]) + multiset{x};
        multiset(b);
        multiset(b[..j]) + multiset{x} + multiset(b[j + 1..]);
        multiset(rest) + multiset{x};
      }
      MultisetCancel(multiset(a[1..]), multiset(rest), x);
      MapPermutation(a[1..], rest, f);
      MapAppend([x], a[1..], f);
      MapAppend(b[..j] + [x], b[j + 1..], f);
      MapAppend(b[..j], [x], f);
      MapAppend(b[..j], b[j + 1..], f);
    }
  }

  /** `f` and then `g` of every element, in order: `f(s[0]), g(s[0]), f(s[1]), ...`. */
  function Interleave<T, U>(s: seq<T>, f: T -> U, g: T -> U): (r: seq<U>)
    ensures |r| == 2 * |s|
    ensures forall i :: 0 <= i < |s| ==> r[2 * i] == f(s[i]) && r[2 * i + 1] == g(s[i])
  {
    if |s| == 0 then []
    else
      var rest := Interleave(s[1..], f, g);
      var r := [f(s[0]), g(s[0])] + rest;
      assert forall i :: 1 <= i < |s| ==> s[i] == s[1..][i - 1];
      assert forall k :: 2 <= k < |r| ==> r[k] == rest[k - 2];
      r
  }

  /** If no element of `[x] + a + b` satisfies `p`, none of `x`, `a` or `b` does. */
  lemma NoneOfParts<T>(s: seq<T>, x: T, a: seq<T>, b: seq<T>, p: T -> bool)
    requires s == [x] + a + b
    requires forall i :: 0 <= i < |s| ==> !p(s[i])
    ensures !p(x)
    ensures forall i :: 0 <= i < |a| ==> !p(a[i])
    ensures forall i :: 0 <= i < |b| ==> !p(b[i])
  {
    assert s[0] == x;
    forall i | 0 <= i < |a| ensures !p(a[i]) {
      assert a[i] == s[1 + i];
    }
    forall i | 0 <= i < |b| ensures !p(b[i]) {
      assert b[i] == s[1 + |a| + i];
    }
  }
}
