/** The order `getFileList` sorts names in: `strcmp` through
    `stringComparator`, and what `qsort` with that comparator produces. */
module StringOrder {
  import opened CStrings

  /** strcmp on two C strings: a value with the same sign as strcmp's,
      which is all qsort uses. It is the difference of the first pair of
      characters that differ, where the end of the shorter string reads as
      its terminator (code 0); C promises only the sign, and a CRT may return
      -1, 0 or 1 instead. A `char` stands for one byte of a narrow (ANSI)
      string, and its code is that byte read as unsigned, so `as int` is
      the unsigned char comparison strcmp makes. */
  function StrCmp(a: string, b: string): (r: int)
    ensures a == b ==> r == 0
  {
    if a == [] && b == [] then 0
    else if a == [] then 0 - b[0] as int
    else if b == [] then a[0] as int
    else if a[0] != b[0] then a[0] as int - b[0] as int
    else StrCmp(a[1..], b[1..])
  }

  /** stringComparator(&a, &b): strcmp of the two pointed-to names. */
  function StringComparator(a: string, b: string): (r: int)
    requires NoNul(a) && NoNul(b)
    ensures r == 0 <==> a == b
    ensures r < 0 <==> StrCmp(b, a) > 0
  {
    StrCmpZero(a, b);
    StrCmpAntisymmetric(a, b);
    StrCmp(a, b)
  }

  /** For strings without a terminator inside, strcmp is 0 exactly on equal
      strings. */
  lemma {:induction false} StrCmpZero(a: string, b: string)
    requires NoNul(a) && NoNul(b)
    ensures StrCmp(a, b) == 0 <==> a == b
  {
    if a != [] && b != [] && a[0] == b[0] {
      StrCmpZero(a[1..], b[1..]);
      if a[1..] == b[1..] {
        assert a == [a[0]] + a[1..] && b == [b[0]] + b[1..];
      }
    } else if a == [] && b != [] {
      assert b[0] != NUL;
    } else if b == [] && a != [] {
      assert a[0] != NUL;
    }
  }

  /** Swapping the arguments negates the result. */
  lemma {:induction false} StrCmpAntisymmetric(a: string, b: string)
    ensures StrCmp(b, a) == -StrCmp(a, b)
  {
    if a != [] && b != [] && a[0] == b[0] {
      StrCmpAntisymmetric(a[1..], b[1..]);
    }
  }

  /** "Sorts no later than" in strcmp order. */
  predicate Le(a: string, b: string) {
    StrCmp(a, b) <= 0
  }

  /** The strcmp order is transitive. */
  lemma {:induction false} StrCmpTransitive(a: string, b: string, c: string)
    requires NoNul(a) && NoNul(b) && NoNul(c)
    requires Le(a, b) && Le(b, c)
    ensures Le(a, c)
  {
    if a != [] {
      assert a[0] in a;
    }
    if b != [] {
      assert b[0] in b;
    }
    if a != [] && b != [] && c != [] && a[0] == b[0] && b[0] == c[0] {
      StrCmpTransitive(a[1..], b[1..], c[1..]);
    }
  }

  /** Any two strings are ordered one way or the other. */
  lemma StrCmpTotal(a: string, b: string)
    ensures Le(a, b) || Le(b, a)
  {
    StrCmpAntisymmetric(a, b);
  }

  predicate AllNoNul(xs: seq<string>) {
    forall i :: 0 <= i < |xs| ==> NoNul(xs[i])
  }

  /** Ascending in strcmp order, as qsort leaves the array. */
  predicate Sorted(xs: seq<string>) {
    forall i, j :: 0 <= i < j < |xs| ==> Le(xs[i], xs[j])
  }

  /** `x` placed before the first element of `xs` it sorts no later than. */
  function Insert(x: string, xs: seq<string>): (r: seq<string>)
    ensures multiset(r) == multiset(xs) + multiset{x}
    ensures |r| == |xs| + 1
  {
    if xs == [] || Le(x, xs[0]) then [x] + xs
    else
      assert xs == [xs[0]] + xs[1..];
      [xs[0]] + Insert(x, xs[1..])
  }

  lemma {:induction false} InsertSorted(x: string, xs: seq<string>)
    requires NoNul(x) && AllNoNul(xs) && Sorted(xs)
    ensures Sorted(Insert(x, xs))
  {
    if xs == [] || Le(x, xs[0]) {
      forall j | 0 < j < |xs| + 1
        ensures Le(x, ([x] + xs)[j])
      {
        if j > 1 {
          StrCmpTransitive(x, xs[0], xs[j - 1]);
        }
      }
    } else {
      StrCmpTotal(x, xs[0]);
      InsertSorted(x, xs[1..]);
      var r := Insert(x, xs[1..]);
      forall j | 0 <= j < |r|
        ensures Le(xs[0], r[j])
      {
        assert r[j] in multiset(r);
        assert r[j] in multiset(xs[1..]) + multiset{x};
        if r[j] != x {
          assert r[j] in xs[1..];
        }
      }
    }
  }

  /** The names in strcmp order: the arrangement qsort with
      stringComparator produces. */
  function SortStrings(xs: seq<string>): (r: seq<string>)
    ensures multiset(r) == multiset(xs)
    ensures |r| == |xs|
  {
    if xs == [] then []
    else
      assert xs == [xs[0]] + xs[1..];
      Insert(xs[0], SortStrings(xs[1..]))
  }

  lemma {:induction false} SortStringsSorted(xs: seq<string>)
    requires AllNoNul(xs)
    ensures Sorted(SortStrings(xs)) && AllNoNul(SortStrings(xs))
  {
    if xs != [] {
      SortStringsSorted(xs[1..]);
      InsertSorted(xs[0], SortStrings(xs[1..]));
      var r := SortStrings(xs);
      forall i | 0 <= i < |r|
        ensures NoNul(r[i])
      {
        assert r[i] in multiset(xs);
      }
    }
  }

  /** The first name of a sorted list sorts no later than any of its names. */
  lemma SortedHeadFirst(xs: seq<string>, y: string)
    requires Sorted(xs) && y in multiset(xs)
    ensures Le(xs[0], y)
  {
    var i :| 0 <= i < |xs| && xs[i] == y;
    if i > 0 {
      assert Le(xs[0], xs[i]);
    }
  }

  /** Dropping the first name keeps a list sorted and NUL-free, and removes
      one occurrence of that name from its multiset. */
  lemma Tail(xs: seq<string>)
    requires xs != []
    ensures Sorted(xs) ==> Sorted(xs[1..])
    ensures AllNoNul(xs) ==> AllNoNul(xs[1..])
    ensures multiset(xs[1..]) == multiset(xs) - multiset{xs[0]}
  {
    assert xs == [xs[0]] + xs[1..];
    forall k | 0 <= k < |xs| - 1
      ensures xs[1..][k] == xs[k + 1]
    {
    }
  }

  /** A sorted permutation of NUL-free names is unique, so every correct
      sort (qsort included, stable or not) yields `SortStrings`. */
  lemma {:induction false} SortedPermutationUnique(xs: seq<string>, ys: seq<string>)
    requires AllNoNul(xs) && Sorted(xs) && Sorted(ys)
    requires multiset(xs) == multiset(ys)
    ensures xs == ys
  {
    if xs != [] {
      SameHead(xs, ys);
      Tail(xs);
      Tail(ys);
      SortedPermutationUnique(xs[1..], ys[1..]);
      assert xs == [xs[0]] + xs[1..] && ys == [ys[0]] + ys[1..];
    } else {
      assert |ys| == |multiset(ys)| == 0;
    }
  }

  /** Two sorted permutations of NUL-free names start with the same name. */
  lemma SameHead(xs: seq<string>, ys: seq<string>)
    requires xs != [] && AllNoNul(xs) && Sorted(xs) && Sorted(ys)
    requires multiset(xs) == multiset(ys)
    ensures ys != [] && xs[0] == ys[0]
  {
    assert |ys| == |multiset(ys)| == |xs|;
    assert xs[0] in multiset(ys) && ys[0] in multiset(xs);
    SortedHeadFirst(ys, xs[0]);
    SortedHeadFirst(xs, ys[0]);
    var j :| 0 <= j < |xs| && xs[j] == ys[0];
    assert NoNul(xs[j]);
    StrCmpAntisymmetric(xs[0], ys[0]);
    StrCmpZero(xs[0], ys[0]);
  }

  /** Lists of fewer than two names are already in order; getFileList
      skips qsort for them. */
  lemma SortShort(xs: seq<string>)
    requires |xs| <= 1
    ensures SortStrings(xs) == xs
  {
    if xs != [] {
      assert xs[1..] == [];
    }
  }

  /** qsort(base, count, sizeof(char*), stringComparator): the array ends
      up holding its names in strcmp order. */
  method QSort(a: array<string>)
    modifies a
    ensures a[..] == SortStrings(old(a[..]))
  {
    var s := SortStrings(a[..]);
    forall i | 0 <= i < a.Length {
      a[i] := s[i];
    }
  }
}
