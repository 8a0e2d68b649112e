/** The orderings LINQ's OrderBy and GroupBy give the generator: a stable sort of a sequence by a
    string key, and the distinct keys of a sequence in order of first appearance. Strings are
    compared ordinally, character by character. */
module Ordering {

  /** a comes no later than b in ordinal lexicographic order */
  predicate Below(a: string, b: string)
    decreases |a|
  {
    |a| == 0 || (|b| > 0 && (a[0] < b[0] || (a[0] == b[0] && Below(a[1..], b[1..]))))
  }

  lemma {:induction false} BelowReflexive(a: string)
    ensures Below(a, a)
    decreases |a|
  {
    if |a| > 0 {
      BelowReflexive(a[1..]);
    }
  }

  lemma {:induction false} BelowTotal(a: string, b: string)
    ensures Below(a, b) || Below(b, a)
    decreases |a|
  {
    if |a| > 0 && |b| > 0 && a[0] == b[0] {
      BelowTotal(a[1..], b[1..]);
    }
  }

  lemma {:induction false} BelowTransitive(a: string, b: string, c: string)
    requires Below(a, b) && Below(b, c)
    ensures Below(a, c)
    decreases |a|
  {
    if |a| > 0 && a[0] == b[0] && b[0] == c[0] {
      BelowTransitive(a[1..], b[1..], c[1..]);
    }
  }

  lemma {:induction false} BelowAntisymmetric(a: string, b: string)
    requires Below(a, b) && Below(b, a)
    ensures a == b
    decreases |a|
  {
    if |a| > 0 {
      BelowAntisymmetric(a[1..], b[1..]);
      assert a == [a[0]] + a[1..] && b == [b[0]] + b[1..];
    }
  }

  predicate SortedBy<T>(s: seq<T>, key: T -> string) {
    forall i, j :: 0 <= i < j < |s| ==> Below(key(s[i]), key(s[j]))
  }

  predicate NoDuplicates<T(==)>(s: seq<T>) {
    forall i, j :: 0 <= i < j < |s| ==> s[i] != s[j]
  }

  /** Places x after every leading element whose key is not greater than its own. */
  function Insert<T>(x: T, s: seq<T>, key: T -> string): seq<T>
    decreases |s|
  {
    if s == [] then [x]
    else if !Below(key(s[0]), key(x)) then [x] + s
    else [s[0]] + Insert(x, s[1..], key)
  }

  /** Inserting adds exactly the one element. */
  lemma {:induction false} InsertPermutes<T>(x: T, s: seq<T>, key: T -> string)
    ensures multiset(Insert(x, s, key)) == multiset(s) + multiset{x}
    decreases |s|
  {
    if s != [] && Below(key(s[0]), key(x)) {
      InsertPermutes(x, s[1..], key);
      assert s == [s[0]] + s[1..];
    }
  }

  /** Inserting into a sorted sequence keeps it sorted. */
  lemma {:induction false} InsertSorted<T>(x: T, s: seq<T>, key: T -> string)
    requires SortedBy(s, key)
    ensures SortedBy(Insert(x, s, key), key)
    decreases |s|
  {
    if s == [] {
    } else if !Below(key(s[0]), key(x)) {
      InsertFront(x, s, key);
    } else {
      var rest := Insert(x, s[1..], key);
      assert s == [s[0]] + s[1..];
      InsertSorted(x, s[1..], key);
      InsertPermutes(x, s[1..], key);
      InsertBehind(s[0], x, s[1..], rest, key);
    }
  }

  lemma InsertFront<T>(x: T, s: seq<T>, key: T -> string)
    requires SortedBy(s, key) && s != [] && !Below(key(s[0]), key(x))
    ensures SortedBy([x] + s, key)
  {
    BelowTotal(key(s[0]), key(x));
    forall j | 0 < j < |s|
      ensures Below(key(x), key(s[j]))
    {
      BelowTransitive(key(x), key(s[0]), key(s[j]));
    }
  }

  lemma InsertBehind<T>(y: T, x: T, s: seq<T>, rest: seq<T>, key: T -> string)
    requires SortedBy([y] + s, key) && SortedBy(rest, key) && Below(key(y), key(x))
    requires multiset(rest) == multiset(s) + multiset{x}
    ensures SortedBy([y] + rest, key)
  {
    forall j | 0 <= j < |rest|
      ensures Below(key(y), key(rest[j]))
    {
      assert rest[j] in multiset(rest);
      if rest[j] != x {
        assert rest[j] in multiset(s);
        assert rest[j] in s;
        var k :| 0 <= k < |s| && s[k] == rest[j];
        assert ([y] + s)[0] == y && ([y] + s)[k + 1] == s[k];
        assert Below(key(([y] + s)[0]), key(([y] + s)[k + 1]));
      }
    }
  }

  /** A stable sort by key, as LINQ's OrderBy. */
  function SortBy<T>(s: seq<T>, key: T -> string): seq<T>
    decreases |s|
  {
    if s == [] then []
    else
      var n := |s| - 1;
      Insert(s[n], SortBy(s[..n], key), key)
  }

  /** The sort permutes its input. */
  lemma {:induction false} SortByPermutes<T>(s: seq<T>, key: T -> string)
    ensures multiset(SortBy(s, key)) == multiset(s)
    decreases |s|
  {
    if s != [] {
      var n := |s| - 1;
      assert s == s[..n] + [s[n]];
      SortByPermutes(s[..n], key);
      InsertPermutes(s[n], SortBy(s[..n], key), key);
    }
  }

  /** The sort orders its input. */
  lemma {:induction false} SortBySorted<T>(s: seq<T>, key: T -> string)
    ensures SortedBy(SortBy(s, key), key)
    decreases |s|
  {
    if s != [] {
      var n := |s| - 1;
      SortBySorted(s[..n], key);
      InsertSorted(s[n], SortBy(s[..n], key), key);
    }
  }

  /** The sort keeps exactly the elements of its input. */
  lemma SortByMembers<T>(s: seq<T>, key: T -> string)
    ensures forall x :: x in SortBy(s, key) <==> x in s
  {
    SortByPermutes(s, key);
    forall x
      ensures x in SortBy(s, key) <==> x in s
    {
      assert x in SortBy(s, key) <==> x in multiset(SortBy(s, key));
      assert x in s <==> x in multiset(s);
    }
  }

  /** The elements of s without repetitions, in order of first appearance, as the keys of
      LINQ's GroupBy. */
  function Distinct(s: seq<string>): seq<string>
    decreases |s|
  {
    if s == [] then []
    else
      var n := |s| - 1;
      var p := Distinct(s[..n]);
      if s[n] in p then p else p + [s[n]]
  }

  /** Distinct drops exactly the repetitions. */
  lemma {:induction false} DistinctSpec(s: seq<string>)
    ensures NoDuplicates(Distinct(s))
    ensures forall x :: x in Distinct(s) <==> x in s
    decreases |s|
  {
    if s != [] {
      var n := |s| - 1;
      assert s == s[..n] + [s[n]];
      DistinctSpec(s[..n]);
    }
  }

  lemma {:induction false} NoDuplicatesCount<T>(s: seq<T>, x: T)
    requires NoDuplicates(s)
    ensures multiset(s)[x] <= 1
    decreases |s|
  {
    if s != [] {
      var n := |s| - 1;
      assert s == s[..n] + [s[n]];
      NoDuplicatesCount(s[..n], x);
      if s[n] == x {
        assert x !in s[..n];
      }
    }
  }

  /** A permutation of a sequence without repetitions has none either. */
  lemma PermutationKeepsNoDuplicates<T>(s: seq<T>, r: seq<T>)
    requires NoDuplicates(s) && multiset(r) == multiset(s)
    ensures NoDuplicates(r)
  {
    forall i, j | 0 <= i < j < |r|
      ensures r[i] != r[j]
    {
      if r[i] == r[j] {
        var x := r[i];
        assert r == r[..j] + [r[j]] + r[j + 1..];
        assert x in r[..j];
        assert multiset(r[..j])[x] >= 1;
        assert multiset(r)[x] >= 2;
        NoDuplicatesCount(s, x);
      }
    }
  }

  /** Strings in ascending order without repetitions are determined by which strings they hold:
      the ordering of a set of keys is unique. */
  lemma {:induction false} SortedUnique(a: seq<string>, b: seq<string>)
    requires SortedBy(a, Self) && SortedBy(b, Self) && NoDuplicates(a) && NoDuplicates(b)
    requires forall x :: x in a <==> x in b
    ensures a == b
    decreases |a|
  {
    if a != [] {
      assert a[0] in a;
    }
    if b != [] {
      assert b[0] in b;
    }
    if a != [] && b != [] {
      var x, y := a[0], b[0];
      assert Below(y, x) by {
        var j :| 0 <= j < |b| && b[j] == x;
        if j == 0 { BelowReflexive(x); }
      }
      assert Below(x, y) by {
        assert y in b;
        var j :| 0 <= j < |a| && a[j] == y;
        if j == 0 { BelowReflexive(y); }
      }
      BelowAntisymmetric(x, y);
      var a', b' := a[1..], b[1..];
      forall z
        ensures z in a' <==> z in b'
      {
        assert z in a' <==> z in a && z != x;
        assert z in b' <==> z in b && z != y;
      }
      SortedUnique(a', b');
      assert a == [x] + a' && b == [y] + b';
    }
  }

  function Self(s: string): string { s }
}
