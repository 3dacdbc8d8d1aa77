/**
 * The integer metrics of `components/DashboardScreen.tsx`: the RFP and
 * awarded-contract counts, awarded contracts counted per centre with the top
 * five, forecasts counted per phase with the top four, the forecast count
 * and the number of upcoming events. The counting objects are plain
 * JavaScript objects filled by a `forEach`, listed with `Object.entries` and
 * sorted by count, largest first.
 */
module Dashboard {
  import opened Options
  import Seqs
  import Strings
  import StableSort
  import JsObjects
  import Loose
  import Types
  import ContractsScreen
  import Events

  // ------------------------------------------------------------ RFPs and awarded contracts

  /** `contracts.filter(c => c.is_rfp)`. */
  function Rfps(contracts: seq<Types.Contract>): seq<Types.Contract>
  {
    Seqs.Filter(contracts, ContractsScreen.IsRfpFn())
  }

  /** `contracts.filter(c => !c.is_rfp)`. */
  function Awarded(contracts: seq<Types.Contract>): seq<Types.Contract>
  {
    Seqs.Filter(contracts, ContractsScreen.NotRfpFn())
  }

  /** Every contract is counted once: as an RFP when `is_rfp` is `true`, as awarded otherwise. */
  lemma CountsAddUp(contracts: seq<Types.Contract>)
    ensures |Rfps(contracts)| + |Awarded(contracts)| == |contracts|
    ensures forall i :: 0 <= i < |contracts| ==>
              (contracts[i] in Rfps(contracts) <==> contracts[i].is_rfp == Some(true))
              && (contracts[i] in Awarded(contracts) <==> contracts[i].is_rfp != Some(true))
  {
    ContractsScreen.PartitionMeaning(contracts);
  }

  // ------------------------------------------------------------ counting objects

  function Is<T>(key: T -> string, k: string): T -> bool
  {
    x => key(x) == k
  }

  /** The keys of a counting object in creation order: each key where it first occurs. */
  function KeysSeen<T>(s: seq<T>, key: T -> string): (r: seq<string>)
    ensures JsObjects.Distinct(r)
    ensures forall k :: k in r <==> exists i :: 0 <= i < |s| && key(s[i]) == k
  {
    if s == [] then []
    else
      var init := s[..|s| - 1];
      var prev := KeysSeen(init, key);
      var k := key(s[|s| - 1]);
      assert forall i :: 0 <= i < |init| ==> init[i] == s[i];
      if k in prev then prev else prev + [k]
  }

  /** The counting object that `obj[key(x)] = (obj[key(x)] || 0) + 1` over `s` builds. */
  function TallyOf<T>(s: seq<T>, key: T -> string): (d: JsObjects.Dict<int>)
    ensures JsObjects.Valid(d)
    ensures d.order == KeysSeen(s, key)
  {
    JsObjects.Dict(KeysSeen(s, key), map k | k in KeysSeen(s, key) :: Seqs.Count(s, Is(key, k)))
  }

  /** Each key of the object counts exactly the elements with that key, at least one. */
  lemma TallyCounts<T>(s: seq<T>, key: T -> string)
    ensures forall k :: k in TallyOf(s, key).vals <==> exists i :: 0 <= i < |s| && key(s[i]) == k
    ensures forall k :: k in TallyOf(s, key).vals ==>
              TallyOf(s, key).vals[k] == Seqs.Count(s, Is(key, k)) >= 1
  {
    forall k | k in TallyOf(s, key).vals
      ensures Seqs.Count(s, Is(key, k)) >= 1
    {
      var i :| 0 <= i < |s| && key(s[i]) == k;
      Seqs.CountZero(s, Is(key, k));
    }
  }

  /** `obj[k] = (obj[k] || 0) + 1`. */
  function Increment(d: JsObjects.Dict<int>, k: string): (r: JsObjects.Dict<int>)
    requires JsObjects.Valid(d)
    ensures JsObjects.Valid(r)
  {
    JsObjects.Put(d, k, (if k in d.vals then d.vals[k] else 0) + 1)
  }

  /** One more element: its key is created with count 1 or its count goes up by 1. */
  lemma TallySnoc<T>(s: seq<T>, x: T, key: T -> string)
    ensures TallyOf(s + [x], key) == Increment(TallyOf(s, key), key(x))
  {
    var d := TallyOf(s, key);
    var k := key(x);
    var after := TallyOf(s + [x], key);
    var put := JsObjects.Put(d, k, (if k in d.vals then d.vals[k] else 0) + 1);
    assert (s + [x])[..|s|] == s;
    assert after.order == put.order;
    forall k' | k' in after.vals
      ensures k' in put.vals && after.vals[k'] == put.vals[k']
    {
      Seqs.CountSnoc(s, x, Is(key, k'));
      if k' == k && k !in d.vals {
        Seqs.CountZero(s, Is(key, k));
      }
    }
    assert after.vals == put.vals;
  }

  /** The sum of an object's values, over its keys in creation order. */
  function SumOf(order: seq<string>, vals: map<string, int>): int
    requires forall k :: k in order ==> k in vals
  {
    if order == [] then 0 else SumOf(order[..|order| - 1], vals) + vals[order[|order| - 1]]
  }

  lemma {:induction false} SumOfIgnores(order: seq<string>, vals: map<string, int>, k: string, v: int)
    requires forall k' :: k' in order ==> k' in vals
    requires k !in order
    ensures SumOf(order, vals[k := v]) == SumOf(order, vals)
  {
    if order != [] {
      SumOfIgnores(order[..|order| - 1], vals, k, v);
    }
  }

  lemma {:induction false} SumOfUpdate(order: seq<string>, vals: map<string, int>, k: string, v: int)
    requires forall k' :: k' in order ==> k' in vals
    requires JsObjects.Distinct(order) && k in order
    ensures SumOf(order, vals[k := v]) == SumOf(order, vals) - vals[k] + v
  {
    var init := order[..|order| - 1];
    if order[|order| - 1] == k {
      SumOfIgnores(init, vals, k, v);
    } else {
      SumOfUpdate(init, vals, k, v);
    }
  }

  /** The counts of a counting object add up to the number of elements counted. */
  lemma {:induction false} TallySum<T>(s: seq<T>, key: T -> string)
    ensures SumOf(TallyOf(s, key).order, TallyOf(s, key).vals) == |s|
  {
    if s != [] {
      var n := |s| - 1;
      TallySum(s[..n], key);
      TallyStep(s, n, key);
      var d := TallyOf(s[..n], key);
      var k := key(s[n]);
      SumOfPut(d, k, (if k in d.vals then d.vals[k] else 0) + 1);
      assert s[..n + 1] == s;
    }
  }

  /** Assigning `obj[k] = v` changes the sum of the values by the change at `k`. */
  lemma SumOfPut(d: JsObjects.Dict<int>, k: string, v: int)
    requires JsObjects.Valid(d)
    ensures var r := JsObjects.Put(d, k, v);
      SumOf(r.order, r.vals) == SumOf(d.order, d.vals) - (if k in d.vals then d.vals[k] else 0) + v
  {
    if k in d.vals {
      SumOfUpdate(d.order, d.vals, k, v);
    } else {
      SumOfIgnores(d.order, d.vals, k, v);
      assert (d.order + [k])[..|d.order|] == d.order;
    }
  }

  /** The `forEach` that fills a counting object. */
  method Tally<T>(s: seq<T>, key: T -> string) returns (d: JsObjects.Dict<int>)
    ensures d == TallyOf(s, key)
  {
    d := JsObjects.Dict([], map[]);
    for n := 0 to |s|
      invariant d == TallyOf(s[..n], key)
    {
      var k := key(s[n]);
      TallyStep(s, n, key);
      d := Increment(d, k);
    }
    assert s[..|s|] == s;
  }

  /** `TallySnoc` at position `n` of `s`. */
  lemma TallyStep<T>(s: seq<T>, n: nat, key: T -> string)
    requires n < |s|
    ensures TallyOf(s[..n + 1], key) == Increment(TallyOf(s[..n], key), key(s[n]))
  {
    assert s[..n + 1] == s[..n] + [s[n]];
    TallySnoc(s[..n], s[n], key);
  }

  /** `Object.entries` lists each key with its value, and nothing else. */
  lemma EntriesListsAll<V>(d: JsObjects.Dict<V>)
    requires JsObjects.Valid(d)
    ensures forall k :: k in d.vals ==> (k, d.vals[k]) in JsObjects.Entries(d)
    ensures forall e :: e in JsObjects.Entries(d) ==> e.0 in d.vals && e.1 == d.vals[e.0]
  {
    KeysInEntries(d);
    EntriesFromObject(d);
  }

  lemma KeysInEntries<V>(d: JsObjects.Dict<V>)
    requires JsObjects.Valid(d)
    ensures forall k :: k in d.vals ==> (k, d.vals[k]) in JsObjects.Entries(d)
  {
    var eo := JsObjects.EntryOrder(d.order);
    JsObjects.EntryOrderMembers(d.order);
    JsObjects.EntryOrderKeys(d.order);
    var es := JsObjects.Entries(d);
    assert es == JsObjects.EntriesOf(eo, d.vals);
    forall k | k in d.vals
      ensures (k, d.vals[k]) in es
    {
      var i :| 0 <= i < |eo| && eo[i] == k;
      assert es[i] == (k, d.vals[k]);
    }
  }

  lemma EntriesFromObject<V>(d: JsObjects.Dict<V>)
    requires JsObjects.Valid(d)
    ensures forall e :: e in JsObjects.Entries(d) ==> e.0 in d.vals && e.1 == d.vals[e.0]
  {
    var eo := JsObjects.EntryOrder(d.order);
    JsObjects.EntryOrderKeys(d.order);
    assert JsObjects.Entries(d) == JsObjects.EntriesOf(eo, d.vals);
  }

  // ------------------------------------------------------------ top entries

  /** The comparator `b - a` on counts: largest first. */
  function ByCountDesc(e: (string, int)): int
  {
    -e.1
  }

  /** `.sort(([,a], [,b]) => b - a).slice(0, n)`. */
  function Top(entries: seq<(string, int)>, n: nat): seq<(string, int)>
  {
    var sorted := StableSort.Sort(entries, ByCountDesc);
    if |sorted| <= n then sorted else sorted[..n]
  }

  /**
   * The top `n` entries: as many as there are up to `n`, in non-increasing
   * order of count, each one of the entries, and no entry left out has a
   * larger count than any entry listed.
   */
  lemma TopMeaning(entries: seq<(string, int)>, n: nat)
    ensures var top := Top(entries, n);
      |top| == (if |entries| < n then |entries| else n)
      && (forall i, j :: 0 <= i < j < |top| ==> top[i].1 >= top[j].1)
      && (forall e :: e in top ==> e in entries)
      && (forall e :: e in entries && e !in top ==> forall i :: 0 <= i < |top| ==> e.1 <= top[i].1)
    ensures (forall i, j :: 0 <= i < j < |entries| ==> entries[i].0 != entries[j].0)
            ==> var top := Top(entries, n); forall i, j :: 0 <= i < j < |top| ==> top[i].0 != top[j].0
  {
    TopOrdered(entries, n);
    TopFromEntries(entries, n);
    TopOmitsNoLarger(entries, n);
    if forall i, j :: 0 <= i < j < |entries| ==> entries[i].0 != entries[j].0 {
      TopDistinctKeys(entries, n);
    }
  }

  /** Entries with distinct keys keep their keys distinct in the top list. */
  lemma TopDistinctKeys(entries: seq<(string, int)>, n: nat)
    requires forall i, j :: 0 <= i < j < |entries| ==> entries[i].0 != entries[j].0
    ensures var top := Top(entries, n); forall i, j :: 0 <= i < j < |top| ==> top[i].0 != top[j].0
  {
    var sorted := StableSort.Sort(entries, ByCountDesc);
    assert JsObjects.Distinct(entries);
    JsObjects.DistinctPermutation(entries, sorted);
    TopFromEntries(entries, n);
    var top := Top(entries, n);
    forall i, j | 0 <= i < j < |top|
      ensures top[i].0 != top[j].0
    {
      assert top[i] == sorted[i] && top[j] == sorted[j] && top[i] != top[j];
      assert top[i] in top && top[j] in top;
      var a :| 0 <= a < |entries| && entries[a] == top[i];
      var b :| 0 <= b < |entries| && entries[b] == top[j];
      assert a != b;
    }
  }

  lemma TopOrdered(entries: seq<(string, int)>, n: nat)
    ensures var top := Top(entries, n);
      |top| == (if |entries| < n then |entries| else n)
      && forall i, j :: 0 <= i < j < |top| ==> top[i].1 >= top[j].1
  {
    var sorted := StableSort.Sort(entries, ByCountDesc);
    var top := Top(entries, n);
    StableSort.SortSorts(entries, ByCountDesc);
    forall i, j | 0 <= i < j < |top|
      ensures top[i].1 >= top[j].1
    {
      assert top[i] == sorted[i] && top[j] == sorted[j];
      assert ByCountDesc(sorted[i]) <= ByCountDesc(sorted[j]);
    }
  }

  lemma TopFromEntries(entries: seq<(string, int)>, n: nat)
    ensures forall e :: e in Top(entries, n) ==> e in entries
  {
    var sorted := StableSort.Sort(entries, ByCountDesc);
    forall e | e in Top(entries, n)
      ensures e in entries
    {
      assert e in sorted;
      assert e in multiset(sorted);
    }
  }

  lemma TopOmitsNoLarger(entries: seq<(string, int)>, n: nat)
    ensures var top := Top(entries, n);
      forall e :: e in entries && e !in top ==> forall i :: 0 <= i < |top| ==> e.1 <= top[i].1
  {
    var sorted := StableSort.Sort(entries, ByCountDesc);
    var top := Top(entries, n);
    StableSort.SortSorts(entries, ByCountDesc);
    forall e | e in entries && e !in top
      ensures forall i :: 0 <= i < |top| ==> e.1 <= top[i].1
    {
      assert e in multiset(sorted);
      var p :| 0 <= p < |sorted| && sorted[p] == e;
      forall i | 0 <= i < |top|
        ensures e.1 <= top[i].1
      {
        assert top[i] == sorted[i];
        assert ByCountDesc(sorted[i]) <= ByCountDesc(sorted[p]);
      }
    }
  }

  // ------------------------------------------------------------ centres

  /** `c.center || 'Other'`. */
  function CenterKey(c: Types.Contract): string
  {
    if c.center != "" then c.center else "Other"
  }

  function CenterKeyFn(): Types.Contract -> string
  {
    c => CenterKey(c)
  }

  /** `centerCounts` over the awarded contracts. */
  function CenterCounts(contracts: seq<Types.Contract>): JsObjects.Dict<int>
  {
    TallyOf(Awarded(contracts), CenterKeyFn())
  }

  /**
   * Each awarded contract is counted once, under its centre or under
   * `'Other'` when it has none; the counts add up to the number of awarded
   * contracts.
   */
  lemma CenterCountsMeaning(contracts: seq<Types.Contract>)
    ensures var d := CenterCounts(contracts); var awarded := Awarded(contracts);
      (forall k :: k in d.vals ==> k != "" && d.vals[k] == Seqs.Count(awarded, Is(CenterKeyFn(), k)) >= 1)
      && (forall c :: c in awarded ==> CenterKey(c) in d.vals)
      && SumOf(d.order, d.vals) == |awarded|
  {
    var awarded := Awarded(contracts);
    TallyMeaning(awarded, CenterKeyFn());
    var d := CenterCounts(contracts);
    forall k | k in d.vals
      ensures k != ""
    {
      var i :| 0 <= i < |awarded| && CenterKeyFn()(awarded[i]) == k;
    }
  }

  /** Every element's key is in the object, each key counts its elements, and the counts add up. */
  lemma TallyMeaning<T>(s: seq<T>, key: T -> string)
    ensures var d := TallyOf(s, key);
      (forall k :: k in d.vals ==> (exists i :: 0 <= i < |s| && key(s[i]) == k) && d.vals[k] == Seqs.Count(s, Is(key, k)) >= 1)
      && (forall x :: x in s ==> key(x) in d.vals)
      && SumOf(d.order, d.vals) == |s|
  {
    TallyCounts(s, key);
    TallySum(s, key);
  }

  /** `topCenters` without the presentation fields: centre and count. */
  function TopCenters(contracts: seq<Types.Contract>): seq<(string, int)>
  {
    TopOf(CenterCounts(contracts), 5)
  }

  // ------------------------------------------------------------ phases

  /** `k.toLowerCase().includes('phase')`. */
  predicate IsPhaseKey(k: string)
  {
    Strings.Contains(Strings.Lower(k), "phase")
  }

  function IsPhaseKeyFn(): string -> bool
  {
    k => IsPhaseKey(k)
  }

  /** The bucket of a forecast: the text of its first phase-like column, or `'Unknown'`. */
  function PhaseOf(row: Loose.Row): string
  {
    match Seqs.FindIndex(Loose.Keys(row), IsPhaseKeyFn())
    case Some(i) => Loose.ToString(row[i].1)
    case None => "Unknown"
  }

  /** A forecast with a phase-like column falls in the bucket of the first one; otherwise in `'Unknown'`. */
  lemma PhaseOfMeaning(row: Loose.Row)
    ensures (forall i :: 0 <= i < |row| ==> !IsPhaseKey(row[i].0)) ==> PhaseOf(row) == "Unknown"
    ensures forall i :: 0 <= i < |row| && IsPhaseKey(row[i].0) && (forall j :: 0 <= j < i ==> !IsPhaseKey(row[j].0))
              ==> PhaseOf(row) == Loose.ToString(row[i].1)
  {
    var ks := Loose.Keys(row);
    var r := Seqs.FindIndex(ks, IsPhaseKeyFn());
    if r.Some? {
      assert IsPhaseKey(row[r.value].0);
    } else {
      assert forall i :: 0 <= i < |row| ==> !IsPhaseKey(row[i].0) by {
        assert forall i :: 0 <= i < |row| ==> ks[i] == row[i].0 && !IsPhaseKeyFn()(ks[i]);
      }
    }
  }

  function PhaseOfFn(): Loose.Row -> string
  {
    f => PhaseOf(f)
  }

  /** `forecastPhaseCounts` after deleting the `'undefined'` and `'N/A'` buckets. */
  function PhaseCounts(forecasts: seq<Loose.Row>): (d: JsObjects.Dict<int>)
    ensures JsObjects.Valid(d)
    ensures "undefined" !in d.vals && "N/A" !in d.vals
  {
    JsObjects.Delete(JsObjects.Delete(TallyOf(forecasts, PhaseOfFn()), "undefined"), "N/A")
  }

  /**
   * The phase buckets are exactly the phases of the forecasts other than
   * `'undefined'` and `'N/A'`, each counting the forecasts in it.
   */
  lemma PhaseCountsMeaning(forecasts: seq<Loose.Row>)
    ensures var d := PhaseCounts(forecasts);
      (forall k :: k in d.vals <==>
         k != "undefined" && k != "N/A" && exists i :: 0 <= i < |forecasts| && PhaseOf(forecasts[i]) == k)
      && (forall k :: k in d.vals ==> d.vals[k] == Seqs.Count(forecasts, Is(PhaseOfFn(), k)) >= 1)
  {
    TallyCounts(forecasts, PhaseOfFn());
  }

  /** `topPhases`: never the `'undefined'` or `'N/A'` bucket. */
  function TopPhases(forecasts: seq<Loose.Row>): (top: seq<(string, int)>)
    ensures forall i :: 0 <= i < |top| ==> top[i].0 != "undefined" && top[i].0 != "N/A"
  {
    TopOf(PhaseCounts(forecasts), 4)
  }

  // ------------------------------------------------------------ metrics

  datatype Metrics = Metrics(
    rfpCount: nat, contractCount: nat, forecastCount: nat, upcomingEvents: nat,
    topCenters: seq<(string, int)>, topPhases: seq<(string, int)>)

  /** The integer parts of `metrics`; `new Date(...)` is `parse` and the current time is `now`. */
  function MetricsOf(contracts: seq<Types.Contract>, events: seq<Types.Event>, forecasts: seq<Loose.Row>,
                     parse: string -> Option<int>, now: int): Metrics
  {
    Metrics(|Rfps(contracts)|, |Awarded(contracts)|, |forecasts|,
            |Seqs.Filter(events, Events.UpcomingFn(parse, now))|,
            TopCenters(contracts), TopPhases(forecasts))
  }

  /** The memoised computation, with its two counting loops. */
  method ComputeMetrics(contracts: seq<Types.Contract>, events: seq<Types.Event>, forecasts: seq<Loose.Row>,
                        parse: string -> Option<int>, now: int) returns (m: Metrics)
    ensures m == MetricsOf(contracts, events, forecasts, parse, now)
  {
    var rfps := Seqs.Filter(contracts, ContractsScreen.IsRfpFn());
    var awarded := Seqs.Filter(contracts, ContractsScreen.NotRfpFn());
    var centerCounts := Tally(awarded, CenterKeyFn());
    var topCenters := TopOf(centerCounts, 5);
    var phaseCounts := Tally(forecasts, PhaseOfFn());
    phaseCounts := JsObjects.Delete(phaseCounts, "undefined");
    phaseCounts := JsObjects.Delete(phaseCounts, "N/A");
    var topPhases := TopOf(phaseCounts, 4);
    m := Metrics(|rfps|, |awarded|, |forecasts|, |Seqs.Filter(events, Events.UpcomingFn(parse, now))|,
                 topCenters, topPhases);
  }

  /**
   * The top `n` entries of a counting object: as many as the object has
   * keys, up to `n`, largest count first, each key once with the object's
   * count for it, and no key left out has a larger count than one listed.
   */
  function TopOf(d: JsObjects.Dict<int>, n: nat): (top: seq<(string, int)>)
    requires JsObjects.Valid(d)
    ensures |top| == if |d.order| < n then |d.order| else n
    ensures forall i, j :: 0 <= i < j < |top| ==> top[i].1 >= top[j].1
    ensures forall i :: 0 <= i < |top| ==> top[i].0 in d.vals && top[i].1 == d.vals[top[i].0]
    ensures forall i, j :: 0 <= i < j < |top| ==> top[i].0 != top[j].0
    ensures forall k :: k in d.vals && (k, d.vals[k]) !in top ==> forall i :: 0 <= i < |top| ==> d.vals[k] <= top[i].1
  {
    TopListsObject(d, n);
    TopOmitsSmaller(d, n);
    Top(JsObjects.Entries(d), n)
  }

  lemma TopListsObject(d: JsObjects.Dict<int>, n: nat)
    requires JsObjects.Valid(d)
    ensures var top := Top(JsObjects.Entries(d), n);
      |top| == (if |d.order| < n then |d.order| else n)
      && (forall i, j :: 0 <= i < j < |top| ==> top[i].1 >= top[j].1)
      && (forall i :: 0 <= i < |top| ==> top[i].0 in d.vals && top[i].1 == d.vals[top[i].0])
      && (forall i, j :: 0 <= i < j < |top| ==> top[i].0 != top[j].0)
  {
    var es := JsObjects.Entries(d);
    TopOrdered(es, n);
    TopValuesFromObject(d, n);
    JsObjects.EntryOrderShape(d.order);
    assert forall i, j :: 0 <= i < j < |es| ==> es[i].0 != es[j].0;
    TopDistinctKeys(es, n);
  }

  lemma TopValuesFromObject(d: JsObjects.Dict<int>, n: nat)
    requires JsObjects.Valid(d)
    ensures var top := Top(JsObjects.Entries(d), n);
      forall i :: 0 <= i < |top| ==> top[i].0 in d.vals && top[i].1 == d.vals[top[i].0]
  {
    var es := JsObjects.Entries(d);
    TopFromEntries(es, n);
    EntriesFromObject(d);
    var top := Top(es, n);
    forall i | 0 <= i < |top|
      ensures top[i].0 in d.vals && top[i].1 == d.vals[top[i].0]
    {
      assert top[i] in top;
    }
  }

  lemma TopOmitsSmaller(d: JsObjects.Dict<int>, n: nat)
    requires JsObjects.Valid(d)
    ensures var top := Top(JsObjects.Entries(d), n);
      forall k :: k in d.vals && (k, d.vals[k]) !in top ==> forall i :: 0 <= i < |top| ==> d.vals[k] <= top[i].1
  {
    var es := JsObjects.Entries(d);
    TopOmitsNoLarger(es, n);
    KeysInEntries(d);
  }

  /**
   * RFPs and awarded contracts together are all contracts, and the upcoming
   * count is the length of the events screen's upcoming list.
   */
  lemma MetricsMeaning(contracts: seq<Types.Contract>, events: seq<Types.Event>, forecasts: seq<Loose.Row>,
                       parse: string -> Option<int>, now: int)
    ensures var m := MetricsOf(contracts, events, forecasts, parse, now);
      m.rfpCount + m.contractCount == |contracts|
      && m.forecastCount == |forecasts|
      && m.upcomingEvents == |Events.Upcoming(events, parse, now)|
  {
    CountsAddUp(contracts);
  }
}
