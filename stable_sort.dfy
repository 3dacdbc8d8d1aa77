/**
 * A reference definition of JavaScript's `Array.prototype.sort` with a
 * numeric comparator `(a, b) => key(a) - key(b)`: a STABLE sort, as the
 * language has required since ES2019. Every ordering the screens apply
 * (`weight` ascending, count descending, date ascending or descending, name
 * length descending) is this sort with the matching key.
 */
module StableSort {
  import Seqs

  /** Inserts `x` before the first element whose key is not smaller. */
  function Insert<T(==)>(x: T, s: seq<T>, key: T -> int): (r: seq<T>)
    ensures |r| == |s| + 1
    ensures multiset(r) == multiset(s) + multiset{x}
  {
    if s == [] || key(x) <= key(s[0]) then [x] + s
    else
      assert s == [s[0]] + s[1..];
      [s[0]] + Insert(x, s[1..], key)
  }

  function Sort<T(==)>(s: seq<T>, key: T -> int): (r: seq<T>)
    ensures |r| == |s|
    ensures multiset(r) == multiset(s)
  {
    if s == [] then []
    else
      assert s == [s[0]] + s[1..];
      Insert(s[0], Sort(s[1..], key), key)
  }

  predicate SortedBy<T>(s: seq<T>, key: T -> int)
  {
    forall i, j :: 0 <= i < j < |s| ==> key(s[i]) <= key(s[j])
  }

  /** The elements whose key is `k`. */
  function HasKey<T>(key: T -> int, k: int): T -> bool
  {
    x => key(x) == k
  }

  lemma {:induction false} InsertSorted<T>(x: T, s: seq<T>, key: T -> int)
    requires SortedBy(s, key)
    ensures SortedBy(Insert(x, s, key), key)
  {
    if s != [] && key(x) > key(s[0]) {
      InsertSorted(x, s[1..], key);
      var t := Insert(x, s[1..], key);
      assert t[0] == x || t[0] == s[1];
    }
  }

  /** The result is ordered by key. */
  lemma {:induction false} SortSorts<T>(s: seq<T>, key: T -> int)
    ensures SortedBy(Sort(s, key), key)
  {
    if s != [] {
      SortSorts(s[1..], key);
      InsertSorted(s[0], Sort(s[1..], key), key);
    }
  }

  lemma {:induction false} InsertStable<T>(x: T, s: seq<T>, key: T -> int, k: int)
    ensures Seqs.Filter(Insert(x, s, key), HasKey(key, k))
         == if key(x) == k then [x] + Seqs.Filter(s, HasKey(key, k)) else Seqs.Filter(s, HasKey(key, k))
  {
    if s != [] && key(x) > key(s[0]) {
      InsertStable(x, s[1..], key, k);
      assert ([s[0]] + Insert(x, s[1..], key))[1..] == Insert(x, s[1..], key);
    } else {
      assert ([x] + s)[1..] == s;
    }
  }

  /** Stability: the elements sharing any one key keep their input order. */
  lemma {:induction false} SortStable<T>(s: seq<T>, key: T -> int, k: int)
    ensures Seqs.Filter(Sort(s, key), HasKey(key, k)) == Seqs.Filter(s, HasKey(key, k))
  {
    if s != [] {
      SortStable(s[1..], key, k);
      InsertStable(s[0], Sort(s[1..], key), key, k);
    }
  }

  /**
   * The head of the sorted list is the first input element among those with
   * the smallest key.
   */
  lemma SortHead<T>(s: seq<T>, key: T -> int)
    requires s != []
    ensures exists i :: 0 <= i < |s| && Sort(s, key)[0] == s[i]
                        && (forall j :: 0 <= j < |s| ==> key(s[i]) <= key(s[j]))
                        && (forall j :: 0 <= j < i ==> key(s[i]) < key(s[j]))
  {
    var i := SortHeadIndex(s, key);
    SortHeadMinimal(s, key);
  }

  /** The head of the sorted list is the first input element with the head's key. */
  lemma SortHeadIndex<T>(s: seq<T>, key: T -> int) returns (i: nat)
    requires s != []
    ensures i < |s| && Sort(s, key)[0] == s[i]
    ensures forall j :: 0 <= j < i ==> key(s[j]) != key(s[i])
  {
    var r := Sort(s, key);
    var p := HasKey(key, key(r[0]));
    SortStable(s, key, key(r[0]));
    assert r == [r[0]] + r[1..];
    assert Seqs.Filter(r, p)[0] == r[0];
    i := Seqs.FilterHead(s, p);
  }

  /** No input element has a smaller key than the head of the sorted list. */
  lemma SortHeadMinimal<T>(s: seq<T>, key: T -> int)
    requires s != []
    ensures forall j :: 0 <= j < |s| ==> key(Sort(s, key)[0]) <= key(s[j])
  {
    var r := Sort(s, key);
    SortSorts(s, key);
    forall j | 0 <= j < |s|
      ensures key(r[0]) <= key(s[j])
    {
      assert s[j] in multiset(r);
      var q :| 0 <= q < |r| && r[q] == s[j];
    }
  }
}
