/**
 * The ordering step of the callback scan: `List.Sort` with the comparison
 * `key(x) - key(y)` evaluated in unchecked 32-bit arithmetic.
 *
 * The model sorts by insertion, which is one of the orders `List.Sort` may
 * produce; nothing here promises anything about the relative order of equal
 * keys. The comparison agrees with integer order only while the difference of
 * two keys fits in 32 bits, so sortedness is promised for keys in
 * [-2^30, 2^30) and the permutation property for all inputs.
 */
module Sorting {
  import opened Numerics

  /** The comparator as written: negative, zero or positive like `a - b`, but wrapping. */
  function Compare(a: int32, b: int32): int32
  {
    Sub32(a, b)
  }

  /** Every key lies where the comparator's subtraction cannot overflow. */
  predicate KeysBounded<T>(s: seq<T>, key: T -> int32)
  {
    forall i :: 0 <= i < |s| ==> -0x4000_0000 <= key(s[i]) as int < 0x4000_0000
  }

  /** Non-decreasing by key. */
  predicate SortedBy<T>(s: seq<T>, key: T -> int32)
  {
    forall i, j :: 0 <= i < j < |s| ==> key(s[i]) <= key(s[j])
  }

  /** For bounded keys the wrapping comparator decides the same as `<=`. */
  lemma CompareAgreesWithOrder(a: int32, b: int32)
    requires -0x4000_0000 <= a as int < 0x4000_0000
    requires -0x4000_0000 <= b as int < 0x4000_0000
    ensures Compare(a, b) <= 0 <==> a <= b
  {
  }

  /** Inserts `x` in front of the first element it does not compare greater than. */
  function Insert<T>(x: T, s: seq<T>, key: T -> int32): (r: seq<T>)
    ensures multiset(r) == multiset(s) + multiset{x}
    ensures |r| == |s| + 1
  {
    if |s| == 0 then [x]
    else if Compare(key(x), key(s[0])) <= 0 then [x] + s
    else
      assert s == [s[0]] + s[1..];
      [s[0]] + Insert(x, s[1..], key)
  }

  /** Insertion sort driven by the source's comparator. */
  function SortBy<T>(s: seq<T>, key: T -> int32): (r: seq<T>)
    ensures multiset(r) == multiset(s)
    ensures |r| == |s|
  {
    if |s| == 0 then []
    else
      assert s == [s[0]] + s[1..];
      Insert(s[0], SortBy(s[1..], key), key)
  }

  lemma {:induction false} InsertKeepsBounds<T>(x: T, s: seq<T>, key: T -> int32)
    requires -0x4000_0000 <= key(x) as int < 0x4000_0000
    requires KeysBounded(s, key)
    ensures KeysBounded(Insert(x, s, key), key)
  {
    var r := Insert(x, s, key);
    forall i | 0 <= i < |r|
      ensures -0x4000_0000 <= key(r[i]) as int < 0x4000_0000
    {
      assert r[i] in multiset(r);
      assert r[i] == x || r[i] in multiset(s);
    }
  }

  /** Every key of `s` is at least `lo`. */
  predicate KeysAtLeast<T>(s: seq<T>, key: T -> int32, lo: int32)
  {
    forall i :: 0 <= i < |s| ==> lo <= key(s[i])
  }

  lemma InsertKeepsLowerBound<T>(x: T, s: seq<T>, key: T -> int32, lo: int32)
    requires lo <= key(x) && KeysAtLeast(s, key, lo)
    ensures KeysAtLeast(Insert(x, s, key), key, lo)
  {
    var r := Insert(x, s, key);
    forall i | 0 <= i < |r| ensures lo <= key(r[i]) {
      assert r[i] in multiset(r);
      assert r[i] == x || r[i] in multiset(s);
    }
  }

  lemma SortedCons<T>(h: T, t: seq<T>, key: T -> int32)
    requires KeysAtLeast(t, key, key(h)) && SortedBy(t, key)
    ensures SortedBy([h] + t, key)
  {
    var r := [h] + t;
    forall i, j | 0 <= i < j < |r| ensures key(r[i]) <= key(r[j]) {
      assert r[j] == t[j - 1];
      if i > 0 {
        assert r[i] == t[i - 1];
      }
    }
  }

  lemma {:induction false} InsertKeepsSorted<T>(x: T, s: seq<T>, key: T -> int32)
    requires -0x4000_0000 <= key(x) as int < 0x4000_0000
    requires KeysBounded(s, key)
    requires SortedBy(s, key)
    ensures SortedBy(Insert(x, s, key), key)
    decreases |s|
  {
    if |s| > 0 {
      CompareAgreesWithOrder(key(x), key(s[0]));
      if Compare(key(x), key(s[0])) > 0 {
        InsertKeepsSorted(x, s[1..], key);
        InsertKeepsLowerBound(x, s[1..], key, key(s[0]));
        SortedCons(s[0], Insert(x, s[1..], key), key);
      } else {
        SortedCons(x, s, key);
      }
    }
  }

  /** With bounded keys the result is ordered by key. */
  lemma {:induction false} SortIsSorted<T>(s: seq<T>, key: T -> int32)
    requires KeysBounded(s, key)
    ensures SortedBy(SortBy(s, key), key)
    ensures KeysBounded(SortBy(s, key), key)
  {
    if |s| == 0 {
    } else {
      SortIsSorted(s[1..], key);
      InsertKeepsSorted(s[0], SortBy(s[1..], key), key);
      InsertKeepsBounds(s[0], SortBy(s[1..], key), key);
    }
  }

  /**
   * The comparator as written misorders keys whose difference overflows:
   * it reports int.MinValue as greater than 1.
   */
  lemma ComparatorOverflows()
    ensures Compare(-0x8000_0000, 1) > 0
  {
    assert Compare(-0x8000_0000, 1) == 0x7FFF_FFFF;
  }
}
