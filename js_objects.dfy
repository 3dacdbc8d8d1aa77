/**
 * A JavaScript plain object used as a dictionary (`{[key: string]: V}`):
 * the values by key, and the keys in insertion order. `Object.entries`
 * lists the keys that are array indices first, in ascending numeric order,
 * then the other keys in insertion order (section 10.1.11.1,
 * OrdinaryOwnPropertyKeys, of ECMA-262).
 */
module JsObjects {
  import Seqs
  import Strings
  import StableSort

  datatype Dict<V> = Dict(order: seq<string>, vals: map<string, V>)

  predicate Distinct<T(==)>(s: seq<T>)
  {
    forall i, j :: 0 <= i < j < |s| ==> s[i] != s[j]
  }

  ghost predicate Valid<V>(d: Dict<V>)
  {
    Distinct(d.order) && forall k :: k in d.vals <==> k in d.order
  }

  const Empty: Dict<nat> := Dict([], map[])

  /** `obj[k] = v`. */
  function Put<V>(d: Dict<V>, k: string, v: V): (r: Dict<V>)
    requires Valid(d)
    ensures Valid(r)
    ensures r.vals == d.vals[k := v]
    ensures r.order == if k in d.vals then d.order else d.order + [k]
  {
    if k in d.vals then Dict(d.order, d.vals[k := v]) else Dict(d.order + [k], d.vals[k := v])
  }

  /** `delete obj[k]`. */
  function Delete<V>(d: Dict<V>, k: string): (r: Dict<V>)
    requires Valid(d)
    ensures Valid(r)
    ensures r.vals == d.vals - {k}
    ensures k !in r.order && Seqs.IsSubseq(r.order, d.order)
    ensures forall x :: x in r.order <==> x in d.order && x != k
  {
    var order := Seqs.Filter(d.order, (x: string) => x != k);
    FilterKeepsDistinct(d.order, (x: string) => x != k);
    Seqs.FilterIsSubseq(d.order, (x: string) => x != k);
    Dict(order, d.vals - {k})
  }

  lemma {:induction false} FilterKeepsDistinct<T>(s: seq<T>, p: T -> bool)
    requires Distinct(s)
    ensures Distinct(Seqs.Filter(s, p))
  {
    if s != [] {
      FilterKeepsDistinct(s[1..], p);
      assert s[0] !in s[1..];
    }
  }

  /** A canonical array index: `"0"` or digits without a leading zero, below 2^32 - 1. */
  predicate IsArrayIndex(k: string)
  {
    |k| > 0 && (forall i :: 0 <= i < |k| ==> Strings.IsDigit(k[i]))
    && (|k| == 1 || k[0] != '0') && Strings.DigitsValue(k) < 0xFFFF_FFFF
  }

  predicate NotArrayIndex(k: string)
  {
    !IsArrayIndex(k)
  }

  function IndexValue(k: string): int
  {
    if forall i :: 0 <= i < |k| ==> Strings.IsDigit(k[i]) then Strings.DigitsValue(k) else 0
  }

  /** The key order of `Object.entries`. */
  function EntryOrder(order: seq<string>): seq<string>
  {
    StableSort.Sort(Seqs.Filter(order, IsArrayIndex), IndexValue)
    + Seqs.Filter(order, NotArrayIndex)
  }

  lemma EntryOrderIsPermutation(order: seq<string>)
    ensures multiset(EntryOrder(order)) == multiset(order)
  {
    Seqs.FilterPartition(order, IsArrayIndex, NotArrayIndex);
  }

  lemma EntryOrderKeys(order: seq<string>)
    ensures |EntryOrder(order)| == |order|
    ensures forall k :: k in EntryOrder(order) ==> k in order
  {
    EntryOrderIsPermutation(order);
    assert |multiset(EntryOrder(order))| == |multiset(order)|;
    forall k | k in EntryOrder(order)
      ensures k in order
    {
      assert k in multiset(EntryOrder(order));
    }
  }

  lemma {:induction false} DistinctIffMultiplicity<T>(s: seq<T>)
    ensures Distinct(s) <==> forall x :: multiset(s)[x] <= 1
  {
    if s != [] {
      DistinctIffMultiplicity(s[1..]);
      assert s == [s[0]] + s[1..];
      if Distinct(s) {
        assert s[0] !in s[1..];
      }
      if forall x :: multiset(s)[x] <= 1 {
        assert multiset(s) == multiset{s[0]} + multiset(s[1..]);
        assert multiset(s)[s[0]] <= 1;
        assert multiset(s[1..])[s[0]] == 0;
        assert forall x :: multiset(s[1..])[x] <= multiset(s)[x];
      }
    }
  }

  lemma DistinctPermutation<T>(a: seq<T>, b: seq<T>)
    requires Distinct(a) && multiset(a) == multiset(b)
    ensures Distinct(b)
  {
    DistinctIffMultiplicity(a);
    DistinctIffMultiplicity(b);
  }

  /**
   * `Object.entries` lists every key exactly once: array indices first in
   * ascending numeric order, then the rest in insertion order.
   */
  lemma EntryOrderShape(order: seq<string>)
    requires Distinct(order)
    ensures Distinct(EntryOrder(order))
    ensures forall k :: k in EntryOrder(order) <==> k in order
    ensures forall i, j :: 0 <= i < j < |EntryOrder(order)| && IsArrayIndex(EntryOrder(order)[j])
              ==> IsArrayIndex(EntryOrder(order)[i]) && IndexValue(EntryOrder(order)[i]) <= IndexValue(EntryOrder(order)[j])
  {
    EntryOrderIsPermutation(order);
    DistinctPermutation(order, EntryOrder(order));
    EntryOrderMembers(order);
    EntryOrderIndicesFirst(order);
  }

  lemma EntryOrderMembers(order: seq<string>)
    ensures forall k :: k in EntryOrder(order) <==> k in order
  {
    EntryOrderIsPermutation(order);
    forall k | k in EntryOrder(order)
      ensures k in order
    {
      assert k in multiset(EntryOrder(order));
    }
    forall k | k in order
      ensures k in EntryOrder(order)
    {
      assert k in multiset(order);
    }
  }

  lemma EntryOrderIndicesFirst(order: seq<string>)
    ensures forall i, j :: 0 <= i < j < |EntryOrder(order)| && IsArrayIndex(EntryOrder(order)[j])
              ==> IsArrayIndex(EntryOrder(order)[i]) && IndexValue(EntryOrder(order)[i]) <= IndexValue(EntryOrder(order)[j])
  {
    var a := StableSort.Sort(Seqs.Filter(order, IsArrayIndex), IndexValue);
    StableSort.SortSorts(Seqs.Filter(order, IsArrayIndex), IndexValue);
    forall i | 0 <= i < |a|
      ensures IsArrayIndex(a[i])
    {
      assert a[i] in multiset(Seqs.Filter(order, IsArrayIndex));
    }
  }

  /** The (key, value) pairs for `keys`. */
  function EntriesOf<V>(keys: seq<string>, vals: map<string, V>): (r: seq<(string, V)>)
    requires forall k :: k in keys ==> k in vals
    ensures |r| == |keys|
    ensures forall i :: 0 <= i < |keys| ==> r[i] == (keys[i], vals[keys[i]])
  {
    if keys == [] then [] else [(keys[0], vals[keys[0]])] + EntriesOf(keys[1..], vals)
  }

  /** `Object.entries(obj)`. */
  function Entries<V>(d: Dict<V>): (r: seq<(string, V)>)
    requires Valid(d)
    ensures |r| == |d.order|
  {
    EntryOrderKeys(d.order);
    EntriesOf(EntryOrder(d.order), d.vals)
  }
}
