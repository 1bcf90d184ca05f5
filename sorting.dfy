/**
  ORDER BY: the services and the report view order their rows by a key. The
  model sorts with a stable insertion sort over a total comparison; SQLite
  leaves the order of rows with equal keys unspecified, and any such order is
  a permutation that is sorted in the same sense.
*/
module Sorting {

  /** Every two values are comparable one way or the other. */
  ghost predicate IsTotal<T(!new)>(leq: (T, T) -> bool) {
    forall a, b :: leq(a, b) || leq(b, a)
  }

  ghost predicate IsTransitive<T(!new)>(leq: (T, T) -> bool) {
    forall a, b, c :: leq(a, b) && leq(b, c) ==> leq(a, c)
  }

  /** Each row is ordered before the next one. */
  predicate Sorted<T>(s: seq<T>, leq: (T, T) -> bool) {
    forall i :: 0 <= i < |s| - 1 ==> leq(s[i], s[i + 1])
  }

  /** Inserts x before the first element it is ordered before. */
  function Insert<T(!new)>(x: T, s: seq<T>, leq: (T, T) -> bool): (r: seq<T>)
    requires IsTotal(leq)
    requires Sorted(s, leq)
    ensures Sorted(r, leq)
    ensures multiset(r) == multiset(s) + multiset{x}
    ensures |r| == |s| + 1
    ensures r[0] == x || (s != [] && r[0] == s[0])
  {
    if s == [] then [x]
    else if leq(x, s[0]) then [x] + s
    else
      var rest := Insert(x, s[1..], leq);
      assert s == [s[0]] + s[1..];
      [s[0]] + rest
  }

  /** The rows of s, sorted by leq: a sorted permutation of s. */
  function SortBy<T(!new)>(s: seq<T>, leq: (T, T) -> bool): (r: seq<T>)
    requires IsTotal(leq)
    ensures Sorted(r, leq)
    ensures multiset(r) == multiset(s)
    ensures |r| == |s|
  {
    if s == [] then []
    else
      assert s == [s[0]] + s[1..];
      Insert(s[0], SortBy(s[1..], leq), leq)
  }

  /** For a transitive order, adjacent order gives order between any two positions. */
  lemma {:induction false} SortedPairwise<T(!new)>(s: seq<T>, leq: (T, T) -> bool, i: int, j: int)
    requires IsTransitive(leq) && IsTotal(leq)
    requires Sorted(s, leq)
    requires 0 <= i <= j < |s|
    ensures leq(s[i], s[j])
  {
    if i < j {
      SortedPairwise(s, leq, i, j - 1);
      assert leq(s[j - 1], s[j]);
    }
  }

  /** Sorting keeps exactly the rows that were there. */
  lemma SortByMembers<T(!new)>(s: seq<T>, leq: (T, T) -> bool, x: T)
    requires IsTotal(leq)
    ensures x in SortBy(s, leq) <==> x in s
  {
    var r := SortBy(s, leq);
    assert x in r <==> x in multiset(r);
    assert x in s <==> x in multiset(s);
  }

  // ---------------------------------------------------------------------------
  // Sums over rows: reordering rows does not change a SUM.

  function SumBy<T>(s: seq<T>, f: T -> int): int {
    if s == [] then 0 else f(s[0]) + SumBy(s[1..], f)
  }

  lemma {:induction false} SumByConcat<T>(a: seq<T>, b: seq<T>, f: T -> int)
    ensures SumBy(a + b, f) == SumBy(a, f) + SumBy(b, f)
  {
    if a == [] {
      assert a + b == b;
    } else {
      assert (a + b)[1..] == a[1..] + b;
      SumByConcat(a[1..], b, f);
    }
  }

  /** Taking one row out of a list takes its term out of the SUM. */
  lemma SumByRemove<T>(b: seq<T>, i: int, f: T -> int)
    requires 0 <= i < |b|
    ensures SumBy(b, f) == SumBy(b[..i] + b[i + 1..], f) + f(b[i])
  {
    assert b == b[..i] + ([b[i]] + b[i + 1..]);
    SumByConcat(b[..i], [b[i]] + b[i + 1..], f);
    assert ([b[i]] + b[i + 1..])[1..] == b[i + 1..];
    SumByConcat(b[..i], b[i + 1..], f);
  }

  /** Taking one row out of a list takes one copy of it out of the multiset. */
  lemma MultisetRemove<T>(b: seq<T>, i: int)
    requires 0 <= i < |b|
    ensures multiset(b[..i] + b[i + 1..]) == multiset(b) - multiset{b[i]}
  {
    assert b == b[..i] + [b[i]] + b[i + 1..];
  }

  lemma {:induction false} SumByPermutation<T>(a: seq<T>, b: seq<T>, f: T -> int)
    requires multiset(a) == multiset(b)
    ensures SumBy(a, f) == SumBy(b, f)
  {
    if a == [] {
      assert |b| == |multiset(b)| == 0;
    } else {
      var x := a[0];
      assert x in multiset(b);
      var i :| 0 <= i < |b| && b[i] == x;
      MultisetRemove(b, i);
      assert a == [x] + a[1..];
      assert multiset(a[1..]) == multiset(a) - multiset{x};
      SumByPermutation(a[1..], b[..i] + b[i + 1..], f);
      SumByRemove(b, i, f);
    }
  }

  /** Sorting keeps every SUM over the rows. */
  lemma SortBySum<T(!new)>(s: seq<T>, leq: (T, T) -> bool, f: T -> int)
    requires IsTotal(leq)
    ensures SumBy(SortBy(s, leq), f) == SumBy(s, f)
  {
    SumByPermutation(SortBy(s, leq), s, f);
  }

  // ---------------------------------------------------------------------------
  // No row twice: a property a reordering keeps.

  predicate NoDuplicates<T(==)>(s: seq<T>) {
    forall i, j :: 0 <= i < j < |s| ==> s[i] != s[j]
  }

  lemma {:induction false} CountAtMostOne<T>(s: seq<T>, x: T)
    requires NoDuplicates(s)
    ensures multiset(s)[x] <= 1
  {
    if s != [] {
      assert s == [s[0]] + s[1..];
      CountAtMostOne(s[1..], x);
      if s[0] == x {
        assert x !in s[1..];
      }
    }
  }

  lemma CountTwo<T>(s: seq<T>, i: int, j: int)
    requires 0 <= i < j < |s| && s[i] == s[j]
    ensures multiset(s)[s[i]] >= 2
  {
    assert s == s[..j] + s[j..];
    assert s[i] in s[..j];
    assert s[j] in s[j..];
  }

  lemma NoDuplicatesPermutation<T>(a: seq<T>, b: seq<T>)
    requires multiset(a) == multiset(b) && NoDuplicates(a)
    ensures NoDuplicates(b)
  {
    forall i, j | 0 <= i < j < |b|
      ensures b[i] != b[j]
    {
      CountAtMostOne(a, b[i]);
      if b[i] == b[j] {
        CountTwo(b, i, j);
      }
    }
  }

  // ---------------------------------------------------------------------------
  // ORDER BY a key that increases along the table: the table read backwards.

  /** Each element of the sequence converted by `f`, in order. */
  function MapSeq<A, B>(s: seq<A>, f: A -> B): (r: seq<B>)
    ensures |r| == |s| && forall i :: 0 <= i < |s| ==> r[i] == f(s[i])
  {
    seq(|s|, i requires 0 <= i < |s| => f(s[i]))
  }

  function Reverse<T>(s: seq<T>): (r: seq<T>)
    ensures |r| == |s|
    ensures forall i :: 0 <= i < |s| ==> r[i] == s[|s| - 1 - i]
  {
    if s == [] then [] else Reverse(s[1..]) + [s[0]]
  }

  lemma {:induction false} ReversePermutation<T>(s: seq<T>)
    ensures multiset(Reverse(s)) == multiset(s)
  {
    if s != [] {
      ReversePermutation(s[1..]);
      assert s == [s[0]] + s[1..];
    }
  }

  /** Keys strictly decrease along the list. */
  predicate StrictlyDescending<T>(s: seq<T>, key: T -> int) {
    forall i, j :: 0 <= i < j < |s| ==> key(s[i]) > key(s[j])
  }

  /** The head of a strictly descending list holds its largest key, and the tail stays
      strictly descending. */
  lemma HeadIsLargest<T>(s: seq<T>, key: T -> int, x: T)
    requires StrictlyDescending(s, key) && s != [] && x in s
    ensures key(s[0]) >= key(x)
    ensures x != s[0] ==> key(s[0]) > key(x)
    ensures StrictlyDescending(s[1..], key)
  {
    var i :| 0 <= i < |s| && s[i] == x;
    if i > 0 {
      assert key(s[0]) > key(s[i]);
    }
  }

  /** Two orderings of the same rows, both strictly descending by a key, are the same list. */
  lemma {:induction false} StrictDescendingUnique<T>(a: seq<T>, b: seq<T>, key: T -> int)
    requires multiset(a) == multiset(b)
    requires StrictlyDescending(a, key) && StrictlyDescending(b, key)
    ensures a == b
  {
    if a == [] {
      assert |b| == |multiset(b)| == 0;
    } else {
      assert |b| == |multiset(b)| == |multiset(a)| == |a|;
      assert a[0] in multiset(b) && b[0] in multiset(a);
      HeadIsLargest(a, key, b[0]);
      HeadIsLargest(b, key, a[0]);
      assert a[0] == b[0];
      assert a == [a[0]] + a[1..] && b == [b[0]] + b[1..];
      assert multiset(a[1..]) == multiset(a) - multiset{a[0]};
      assert multiset(b[1..]) == multiset(b) - multiset{b[0]};
      StrictDescendingUnique(a[1..], b[1..], key);
    }
  }

  /** Without repeated rows, a listing in descending key order of rows whose keys are
      distinct is strictly descending. */
  lemma DistinctKeysStrict<T>(s: seq<T>, r: seq<T>, key: T -> int)
    requires forall i, j :: 0 <= i < j < |s| ==> key(s[i]) < key(s[j])
    requires multiset(r) == multiset(s)
    requires forall i, j :: 0 <= i <= j < |r| ==> key(r[i]) >= key(r[j])
    ensures StrictlyDescending(r, key)
  {
    assert NoDuplicates(s);
    NoDuplicatesPermutation(s, r);
    forall i, j | 0 <= i < j < |r|
      ensures key(r[i]) > key(r[j])
    {
      assert r[i] in multiset(s) && r[j] in multiset(s);
      var p :| 0 <= p < |s| && s[p] == r[i];
      var q :| 0 <= q < |s| && s[q] == r[j];
      assert p != q;
    }
  }

  /** Rows listed by a key in descending order, when the key strictly increases along the
      table, are the table reversed. */
  lemma DescendingIsReverse<T>(s: seq<T>, r: seq<T>, key: T -> int)
    requires forall i, j :: 0 <= i < j < |s| ==> key(s[i]) < key(s[j])
    requires multiset(r) == multiset(s)
    requires forall i, j :: 0 <= i <= j < |r| ==> key(r[i]) >= key(r[j])
    ensures r == Reverse(s)
  {
    DistinctKeysStrict(s, r, key);
    ReversePermutation(s);
    ReverseStrictlyDescending(s, key);
    StrictDescendingUnique(r, Reverse(s), key);
  }

  /** Reversing a list whose keys strictly increase makes them strictly decrease. */
  lemma ReverseStrictlyDescending<T>(s: seq<T>, key: T -> int)
    requires forall i, j :: 0 <= i < j < |s| ==> key(s[i]) < key(s[j])
    ensures StrictlyDescending(Reverse(s), key)
  {
    var r := Reverse(s);
    forall i, j | 0 <= i < j < |r|
      ensures key(r[i]) > key(r[j])
    {
      assert r[i] == s[|s| - 1 - i] && r[j] == s[|s| - 1 - j];
    }
  }
}
