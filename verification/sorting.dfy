/**
  Ordering by score, best first: the std::sort calls of the search (with
  TranslationOption::Better, a greater future score first) and the ranking
  the stand-ins for the unseen containers use. The model sorts stably by
  insertion, which is one of the orders std::sort may produce.
 */
module Sorting {

  /** Non-increasing key from left to right. */
  predicate SortedBy<T>(s: seq<T>, key: T -> int)
  {
    forall i, j :: 0 <= i < j < |s| ==> key(s[i]) >= key(s[j])
  }

  /** Inserts x after every element whose key is at least x's. */
  function Insert<T>(s: seq<T>, x: T, key: T -> int): (r: seq<T>)
    ensures |r| == |s| + 1
  {
    if |s| == 0 then [x]
    else if key(s[0]) < key(x) then [x] + s
    else [s[0]] + Insert(s[1..], x, key)
  }

  /** Insertion sort by key, best (greatest key) first. */
  function SortByKey<T>(s: seq<T>, key: T -> int): (r: seq<T>)
    ensures |r| == |s|
  {
    if |s| == 0 then [] else Insert(SortByKey(s[..|s| - 1], key), s[|s| - 1], key)
  }

  lemma {:induction false} InsertPermutes<T>(s: seq<T>, x: T, key: T -> int)
    ensures multiset(Insert(s, x, key)) == multiset(s) + multiset{x}
  {
    if |s| > 0 && key(s[0]) >= key(x) {
      InsertPermutes(s[1..], x, key);
      assert s == [s[0]] + s[1..];
    }
  }

  lemma {:induction false} InsertSorted<T>(s: seq<T>, x: T, key: T -> int)
    requires SortedBy(s, key)
    ensures SortedBy(Insert(s, x, key), key)
  {
    if |s| > 0 && key(s[0]) >= key(x) {
      InsertSorted(s[1..], x, key);
      var r := Insert(s[1..], x, key);
      InsertPermutes(s[1..], x, key);
      forall k | 0 <= k < |r|
        ensures key(s[0]) >= key(r[k])
      {
        assert r[k] in multiset(r);
        assert r[k] in multiset(s[1..]) || r[k] == x;
        if r[k] != x {
          var m :| 0 <= m < |s[1..]| && s[1..][m] == r[k];
          assert s[1..][m] == s[m + 1];
        }
      }
    }
  }

  /** The sort yields a permutation of its input, ordered best first. */
  lemma {:induction false} SortByKeyCorrect<T>(s: seq<T>, key: T -> int)
    ensures multiset(SortByKey(s, key)) == multiset(s)
    ensures SortedBy(SortByKey(s, key), key)
  {
    if |s| > 0 {
      var p := s[..|s| - 1];
      SortByKeyCorrect(p, key);
      InsertPermutes(SortByKey(p, key), s[|s| - 1], key);
      InsertSorted(SortByKey(p, key), s[|s| - 1], key);
      assert s == p + [s[|s| - 1]];
    }
  }

  function Min(a: nat, b: nat): nat
  {
    if a <= b then a else b
  }

  /** The best n elements by key (all of them when there are fewer). */
  function Best<T>(s: seq<T>, n: nat, key: T -> int): (r: seq<T>)
    ensures |r| == Min(n, |s|)
  {
    SortByKey(s, key)[..Min(n, |s|)]
  }

  /** Keeping the best n keeps elements of the input, none scored below one left out. */
  lemma BestKeepsBest<T>(s: seq<T>, n: nat, key: T -> int)
    ensures multiset(Best(s, n, key)) <= multiset(s)
    ensures SortedBy(Best(s, n, key), key)
    ensures forall i, j :: 0 <= i < Min(n, |s|) <= j < |s| ==>
      key(Best(s, n, key)[i]) >= key(SortByKey(s, key)[j])
  {
    var sorted := SortByKey(s, key);
    SortByKeyCorrect(s, key);
    var k := Min(n, |s|);
    assert sorted == sorted[..k] + sorted[k..];
    assert multiset(sorted) == multiset(sorted[..k]) + multiset(sorted[k..]);
  }
}
