/** `Array.prototype.sort` with a numeric comparator `(a, b) => key(a) - key(b)`,
    which the language requires to be stable: an insertion sort that puts
    each element before the first one of equal or greater key. */
module Sorting {
  import Seqs

  predicate SortedBy<T>(s: seq<T>, key: T -> int) {
    forall i, j :: 0 <= i < j < |s| ==> key(s[i]) <= key(s[j])
  }

  /** Inserts `x` before the first element whose key is not smaller. */
  function InsertBy<T>(x: T, s: seq<T>, key: T -> int): (r: seq<T>)
    ensures |r| == |s| + 1
  {
    if |s| == 0 || key(x) <= key(s[0]) then [x] + s
    else [s[0]] + InsertBy(x, s[1..], key)
  }

  lemma {:induction false} InsertByPermutes<T>(x: T, s: seq<T>, key: T -> int)
    ensures multiset(InsertBy(x, s, key)) == multiset(s) + multiset{x}
  {
    if |s| > 0 && key(x) > key(s[0]) {
      InsertByPermutes(x, s[1..], key);
      assert s == [s[0]] + s[1..];
    }
  }

  function SortBy<T(==)>(s: seq<T>, key: T -> int): (r: seq<T>)
    ensures multiset(r) == multiset(s)
  {
    if |s| == 0 then []
    else
      assert s == [s[0]] + s[1..];
      InsertByPermutes(s[0], SortBy(s[1..], key), key);
      InsertBy(s[0], SortBy(s[1..], key), key)
  }

  lemma {:induction false} InsertBySorted<T>(x: T, s: seq<T>, key: T -> int)
    requires SortedBy(s, key)
    ensures SortedBy(InsertBy(x, s, key), key)
  {
    if |s| > 0 && key(x) > key(s[0]) {
      InsertBySorted(x, s[1..], key);
      InsertByPermutes(x, s[1..], key);
      var t := InsertBy(x, s[1..], key);
      assert InsertBy(x, s, key) == [s[0]] + t;
      forall i | 0 <= i < |t|
        ensures key(s[0]) <= key(t[i])
      {
        assert t[i] in multiset(s[1..]) + multiset{x};
        if t[i] in s[1..] {
          var a :| 0 <= a < |s[1..]| && s[1..][a] == t[i];
          assert s[a + 1] == t[i];
        }
      }
    }
  }

  /** The elements whose key is `k`. */
  function KeyIs<T>(key: T -> int, k: int): T -> bool {
    x => key(x) == k
  }

  lemma FilterSingleton<T>(x: T, p: T -> bool)
    ensures Seqs.Filter([x], p) == if p(x) then [x] else []
  {
    assert [x][1..] == [];
  }

  /** Inserting keeps the relative order of the elements of each key and
      places `x` before the others of its key. */
  lemma {:induction false} InsertByStable<T>(x: T, s: seq<T>, key: T -> int, k: int)
    ensures Seqs.Filter(InsertBy(x, s, key), KeyIs(key, k)) ==
      (if key(x) == k then [x] else []) + Seqs.Filter(s, KeyIs(key, k))
  {
    var p := KeyIs(key, k);
    FilterSingleton(x, p);
    if |s| == 0 || key(x) <= key(s[0]) {
      assert InsertBy(x, s, key) == [x] + s;
      Seqs.FilterConcat([x], s, p);
    } else {
      InsertByStable(x, s[1..], key, k);
      var head := if key(x) == k then [x] else [];
      var t := InsertBy(x, s[1..], key);
      assert InsertBy(x, s, key) == [s[0]] + t;
      FilterSingleton(s[0], p);
      Seqs.FilterConcat([s[0]], t, p);
      Seqs.FilterConcat([s[0]], s[1..], p);
      assert [s[0]] + s[1..] == s;
      var f0 := Seqs.Filter([s[0]], p);
      var rest := Seqs.Filter(s[1..], p);
      assert Seqs.Filter(InsertBy(x, s, key), p) == f0 + (head + rest);
      assert Seqs.Filter(s, p) == f0 + rest;
      assert f0 == [] || head == [];
      Regroup(f0, head, rest);
    }
  }

  lemma Regroup<T>(a: seq<T>, b: seq<T>, c: seq<T>)
    requires a == [] || b == []
    ensures a + (b + c) == b + (a + c)
  {
  }

  /** The sort orders by key and keeps the relative order of the elements
      of each key. */
  lemma {:induction false} SortByMeaning<T>(s: seq<T>, key: T -> int, k: int)
    ensures SortedBy(SortBy(s, key), key)
    ensures Seqs.Filter(SortBy(s, key), KeyIs(key, k)) == Seqs.Filter(s, KeyIs(key, k))
  {
    if |s| > 0 {
      SortByMeaning(s[1..], key, k);
      InsertBySorted(s[0], SortBy(s[1..], key), key);
      InsertByStable(s[0], SortBy(s[1..], key), key, k);
      FilterSingleton(s[0], KeyIs(key, k));
      Seqs.FilterConcat([s[0]], s[1..], KeyIs(key, k));
      assert [s[0]] + s[1..] == s;
    }
  }
}
