/**
 * The NAICS search screen: contracts grouped by their trimmed NAICS field,
 * the groups listed largest first, narrowed by a code search, and the
 * screen's contract bookmark toggle.
 */
module NaicsSearch {
  import Strings
  import Seqs
  import StableSort
  import JsObjects
  import Types
  import Bookmarks

  datatype NaicsGroup = NaicsGroup(code: string, contracts: seq<Types.Contract>)

  /** `if (contract.naics)`: the NAICS field is a non-empty string. */
  predicate HasNaics(c: Types.Contract)
  {
    c.naics != ""
  }

  /** The contracts that belong in the group keyed `code`. */
  function InGroup(code: string): Types.Contract -> bool
  {
    (c: Types.Contract) => HasNaics(c) && Strings.Trim(c.naics) == code
  }

  /** The group keys in the order the grouping loop first creates them. */
  function FirstSeen(cs: seq<Types.Contract>): (r: seq<string>)
    ensures JsObjects.Distinct(r)
  {
    if cs == [] then []
    else
      var prev := FirstSeen(cs[..|cs| - 1]);
      var c := cs[|cs| - 1];
      if HasNaics(c) && Strings.Trim(c.naics) !in prev then prev + [Strings.Trim(c.naics)] else prev
  }

  /** Every contract with a NAICS field has its key among the first-seen keys. */
  lemma {:induction false} FirstSeenCovers(cs: seq<Types.Contract>)
    ensures forall i :: 0 <= i < |cs| && HasNaics(cs[i]) ==> Strings.Trim(cs[i].naics) in FirstSeen(cs)
  {
    if cs != [] {
      var init := cs[..|cs| - 1];
      FirstSeenCovers(init);
      forall i | 0 <= i < |cs| - 1 && HasNaics(cs[i])
        ensures Strings.Trim(cs[i].naics) in FirstSeen(cs)
      {
        assert cs[i] == init[i];
      }
    }
  }

  /** Every first-seen key is the trimmed NAICS of some contract. */
  lemma {:induction false} FirstSeenFromContracts(cs: seq<Types.Contract>)
    ensures forall k :: k in FirstSeen(cs) ==> exists i :: 0 <= i < |cs| && InGroup(k)(cs[i])
  {
    if cs != [] {
      var init := cs[..|cs| - 1];
      FirstSeenFromContracts(init);
      forall k | k in FirstSeen(cs)
        ensures exists i :: 0 <= i < |cs| && InGroup(k)(cs[i])
      {
        if k in FirstSeen(init) {
          var i :| 0 <= i < |init| && InGroup(k)(init[i]);
          assert cs[i] == init[i];
        } else {
          assert InGroup(k)(cs[|cs| - 1]);
        }
      }
    }
  }

  lemma NoMemberEmptyGroup(cs: seq<Types.Contract>, k: string)
    requires forall i :: 0 <= i < |cs| ==> !InGroup(k)(cs[i])
    ensures Seqs.Filter(cs, InGroup(k)) == []
  {
  }

  /**
   * The `forEach` that fills `groups`: every key is the trimmed NAICS of some
   * contract, keys are created in first-seen order, and each group holds
   * exactly the contracts with that key, in input order.
   */
  method GroupByNaics(contracts: seq<Types.Contract>) returns (groups: JsObjects.Dict<seq<Types.Contract>>)
    ensures JsObjects.Valid(groups)
    ensures groups.order == FirstSeen(contracts)
    ensures forall k :: k in groups.vals ==> groups.vals[k] == Seqs.Filter(contracts, InGroup(k))
  {
    groups := JsObjects.Dict([], map[]);
    for n := 0 to |contracts|
      invariant JsObjects.Valid(groups)
      invariant groups.order == FirstSeen(contracts[..n])
      invariant forall k :: k in groups.vals ==> groups.vals[k] == Seqs.Filter(contracts[..n], InGroup(k))
    {
      var c := contracts[n];
      ghost var seen := contracts[..n];
      ghost var before := groups;
      assert contracts[..n + 1] == seen + [c];
      FirstSeenSnoc(seen, c);
      if c.naics != "" {
        var code := Strings.Trim(c.naics);
        var group := [];
        if code in groups.vals {
          group := groups.vals[code];
        } else {
          FirstSeenCovers(seen);
          NoMemberEmptyGroup(seen, code);
        }
        groups := JsObjects.Put(groups, code, group + [c]);
        GroupsAfter(seen, c, before.vals, code);
      } else {
        GroupsUnchanged(seen, c, groups.vals);
      }
    }
    assert contracts[..|contracts|] == contracts;
  }

  /** Appending a contract to its group gives the groups of `seen + [c]`. */
  lemma GroupsAfter(seen: seq<Types.Contract>, c: Types.Contract, before: map<string, seq<Types.Contract>>, code: string)
    requires forall k :: k in before ==> before[k] == Seqs.Filter(seen, InGroup(k))
    requires HasNaics(c) && code == Strings.Trim(c.naics)
    ensures var after := before[code := Seqs.Filter(seen, InGroup(code)) + [c]];
      forall k :: k in after ==> after[k] == Seqs.Filter(seen + [c], InGroup(k))
  {
    forall k | k in before[code := Seqs.Filter(seen, InGroup(code)) + [c]]
      ensures before[code := Seqs.Filter(seen, InGroup(code)) + [c]][k] == Seqs.Filter(seen + [c], InGroup(k))
    {
      Seqs.FilterSnoc(seen, c, InGroup(k));
    }
  }

  /** A contract without a NAICS field leaves every group as it was. */
  lemma GroupsUnchanged(seen: seq<Types.Contract>, c: Types.Contract, groups: map<string, seq<Types.Contract>>)
    requires forall k :: k in groups ==> groups[k] == Seqs.Filter(seen, InGroup(k))
    requires !HasNaics(c)
    ensures forall k :: k in groups ==> groups[k] == Seqs.Filter(seen + [c], InGroup(k))
  {
    forall k | k in groups
      ensures groups[k] == Seqs.Filter(seen + [c], InGroup(k))
    {
      Seqs.FilterSnoc(seen, c, InGroup(k));
    }
  }

  lemma FirstSeenSnoc(cs: seq<Types.Contract>, c: Types.Contract)
    ensures FirstSeen(cs + [c])
         == if HasNaics(c) && Strings.Trim(c.naics) !in FirstSeen(cs)
            then FirstSeen(cs) + [Strings.Trim(c.naics)] else FirstSeen(cs)
  {
    assert (cs + [c])[..|cs|] == cs;
  }



  /** The `{ code, contracts }` records for `codes`, in that order. */
  function GroupsOf(codes: seq<string>, cs: seq<Types.Contract>): seq<NaicsGroup>
  {
    seq(|codes|, i requires 0 <= i < |codes| => NaicsGroup(codes[i], Seqs.Filter(cs, InGroup(codes[i]))))
  }

  /** The sort key of `b.contracts.length - a.contracts.length`: larger groups first. */
  function ByCountDesc(g: NaicsGroup): int
  {
    -|g.contracts|
  }

  /** `naicsGroups`: the entries of the grouping object, stably sorted by size, largest first. */
  function NaicsGroups(cs: seq<Types.Contract>): seq<NaicsGroup>
  {
    StableSort.Sort(GroupsOf(JsObjects.EntryOrder(FirstSeen(cs)), cs), ByCountDesc)
  }

  /** `.map(([code, groupContracts]) => ({ code, contracts: groupContracts }))`. */
  function AsGroups(entries: seq<(string, seq<Types.Contract>)>): seq<NaicsGroup>
  {
    seq(|entries|, i requires 0 <= i < |entries| => NaicsGroup(entries[i].0, entries[i].1))
  }

  /** The memoised computation: group, list the entries, sort. */
  method ComputeNaicsGroups(contracts: seq<Types.Contract>) returns (r: seq<NaicsGroup>)
    ensures r == NaicsGroups(contracts)
  {
    var groups := GroupByNaics(contracts);
    EntriesAsGroups(groups, contracts);
    r := StableSort.Sort(AsGroups(JsObjects.Entries(groups)), ByCountDesc);
  }

  /** The entries of the grouping object, as records, are the groups of the first-seen keys in entry order. */
  lemma EntriesAsGroups(groups: JsObjects.Dict<seq<Types.Contract>>, contracts: seq<Types.Contract>)
    requires JsObjects.Valid(groups)
    requires groups.order == FirstSeen(contracts)
    requires forall k :: k in groups.vals ==> groups.vals[k] == Seqs.Filter(contracts, InGroup(k))
    ensures AsGroups(JsObjects.Entries(groups)) == GroupsOf(JsObjects.EntryOrder(FirstSeen(contracts)), contracts)
  {
    var keys := JsObjects.EntryOrder(groups.order);
    JsObjects.EntryOrderKeys(groups.order);
    var entries := JsObjects.Entries(groups);
    assert entries == JsObjects.EntriesOf(keys, groups.vals);
    var mapped := AsGroups(entries);
    forall i | 0 <= i < |mapped|
      ensures mapped[i] == NaicsGroup(keys[i], Seqs.Filter(contracts, InGroup(keys[i])))
    {
      assert entries[i] == (keys[i], groups.vals[keys[i]]);
    }
    assert mapped == GroupsOf(keys, contracts);
  }

  // ------------------------------------------------------------ properties

  /**
   * The groups partition the contracts that have a NAICS field: every group
   * is non-empty and holds exactly the contracts whose trimmed NAICS is its
   * code, no two groups share a code, and every such contract has a group.
   */
  lemma NaicsGroupsPartition(cs: seq<Types.Contract>)
    ensures var gs := NaicsGroups(cs);
      forall i :: 0 <= i < |gs| ==>
        gs[i].contracts == Seqs.Filter(cs, InGroup(gs[i].code)) && gs[i].contracts != []
    ensures var gs := NaicsGroups(cs);
      forall i, j :: 0 <= i < j < |gs| ==> gs[i].code != gs[j].code
    ensures var gs := NaicsGroups(cs);
      forall c :: c in cs && HasNaics(c) ==> exists i :: 0 <= i < |gs| && gs[i].code == Strings.Trim(c.naics)
  {
    NaicsGroupsAreGroups(cs);
    NaicsGroupsCover(cs);
  }

  /** Each listed group is a distinct, non-empty group of some key. */
  lemma NaicsGroupsAreGroups(cs: seq<Types.Contract>)
    ensures var gs := NaicsGroups(cs);
      forall i :: 0 <= i < |gs| ==>
        gs[i].contracts == Seqs.Filter(cs, InGroup(gs[i].code)) && gs[i].contracts != []
    ensures var gs := NaicsGroups(cs);
      forall i, j :: 0 <= i < j < |gs| ==> gs[i].code != gs[j].code
  {
    var codes := FirstSeen(cs);
    var eo := JsObjects.EntryOrder(codes);
    JsObjects.EntryOrderShape(codes);
    FirstSeenFromContracts(cs);
    GroupsOfShape(eo, cs);
    PermutedGroups(GroupsOf(eo, cs), NaicsGroups(cs), cs);
  }

  /** Reordering distinct, non-empty groups keeps them distinct and non-empty. */
  lemma PermutedGroups(u: seq<NaicsGroup>, gs: seq<NaicsGroup>, cs: seq<Types.Contract>)
    requires multiset(gs) == multiset(u) && JsObjects.Distinct(u)
    requires forall g :: g in u ==> g.contracts == Seqs.Filter(cs, InGroup(g.code)) && g.contracts != []
    ensures forall i :: 0 <= i < |gs| ==>
      gs[i].contracts == Seqs.Filter(cs, InGroup(gs[i].code)) && gs[i].contracts != []
    ensures forall i, j :: 0 <= i < j < |gs| ==> gs[i].code != gs[j].code
  {
    forall i | 0 <= i < |gs|
      ensures gs[i] in u
    {
      assert gs[i] in multiset(gs);
    }
    JsObjects.DistinctPermutation(u, gs);
    forall i, j | 0 <= i < j < |gs|
      ensures gs[i].code != gs[j].code
    {
      assert gs[i] == NaicsGroup(gs[i].code, Seqs.Filter(cs, InGroup(gs[i].code)));
      assert gs[j] == NaicsGroup(gs[j].code, Seqs.Filter(cs, InGroup(gs[j].code)));
    }
  }

  /** Every contract with a NAICS field has a listed group. */
  lemma NaicsGroupsCover(cs: seq<Types.Contract>)
    ensures var gs := NaicsGroups(cs);
      forall c :: c in cs && HasNaics(c) ==> exists i :: 0 <= i < |gs| && gs[i].code == Strings.Trim(c.naics)
  {
    var codes := FirstSeen(cs);
    var eo := JsObjects.EntryOrder(codes);
    JsObjects.EntryOrderShape(codes);
    var u := GroupsOf(eo, cs);
    var gs := NaicsGroups(cs);
    FirstSeenCovers(cs);
    forall c | c in cs && HasNaics(c)
      ensures exists i :: 0 <= i < |gs| && gs[i].code == Strings.Trim(c.naics)
    {
      var w :| 0 <= w < |cs| && cs[w] == c;
      var p :| 0 <= p < |eo| && eo[p] == Strings.Trim(c.naics);
      assert u[p] in multiset(gs);
    }
  }

  /** Groups built from distinct keys, each of which some contract has, are distinct and non-empty. */
  lemma GroupsOfShape(codes: seq<string>, cs: seq<Types.Contract>)
    requires JsObjects.Distinct(codes)
    requires forall k :: k in codes ==> exists i :: 0 <= i < |cs| && InGroup(k)(cs[i])
    ensures JsObjects.Distinct(GroupsOf(codes, cs))
    ensures forall g :: g in GroupsOf(codes, cs) ==>
      g.contracts == Seqs.Filter(cs, InGroup(g.code)) && g.contracts != []
  {
    var u := GroupsOf(codes, cs);
    forall g | g in u
      ensures g.contracts == Seqs.Filter(cs, InGroup(g.code)) && g.contracts != []
    {
      var p :| 0 <= p < |u| && u[p] == g;
      assert codes[p] in codes;
      var w :| 0 <= w < |cs| && InGroup(codes[p])(cs[w]);
      assert cs[w] in g.contracts;
    }
  }

  /** Larger groups come first. */
  lemma NaicsGroupsBySize(cs: seq<Types.Contract>)
    ensures var gs := NaicsGroups(cs);
      forall i, j :: 0 <= i < j < |gs| ==> |gs[i].contracts| >= |gs[j].contracts|
  {
    StableSort.SortSorts(GroupsOf(JsObjects.EntryOrder(FirstSeen(cs)), cs), ByCountDesc);
  }

  /**
   * Groups of equal size keep the order of `Object.entries`: codes that are
   * array indices (plain digit strings such as six-digit NAICS codes) in
   * ascending numeric order, then the others in first-seen order.
   */
  lemma NaicsGroupsTies(cs: seq<Types.Contract>, key: int)
    ensures Seqs.Filter(NaicsGroups(cs), StableSort.HasKey(ByCountDesc, key))
         == Seqs.Filter(GroupsOf(JsObjects.EntryOrder(FirstSeen(cs)), cs), StableSort.HasKey(ByCountDesc, key))
  {
    StableSort.SortStable(GroupsOf(JsObjects.EntryOrder(FirstSeen(cs)), cs), ByCountDesc, key);
  }

  function SumSizes(gs: seq<NaicsGroup>): nat
  {
    if gs == [] then 0 else |gs[0].contracts| + SumSizes(gs[1..])
  }

  /** The group sizes add up to the number of contracts with a NAICS field. */
  lemma NaicsGroupsCount(cs: seq<Types.Contract>)
    ensures SumSizes(NaicsGroups(cs)) == Seqs.Count(cs, HasNaics)
  {
    var codes := FirstSeen(cs);
    var eo := JsObjects.EntryOrder(codes);
    JsObjects.EntryOrderShape(codes);
    FirstSeenCovers(cs);
    SortKeepsSum(GroupsOf(eo, cs));
    GroupsTotal(eo, cs);
    CodeTotalCovering(eo, cs);
  }

  lemma {:induction false} InsertKeepsSum(x: NaicsGroup, s: seq<NaicsGroup>)
    ensures SumSizes(StableSort.Insert(x, s, ByCountDesc)) == |x.contracts| + SumSizes(s)
  {
    if s != [] && ByCountDesc(x) > ByCountDesc(s[0]) {
      InsertKeepsSum(x, s[1..]);
      assert ([s[0]] + StableSort.Insert(x, s[1..], ByCountDesc))[1..] == StableSort.Insert(x, s[1..], ByCountDesc);
    } else {
      assert ([x] + s)[1..] == s;
    }
  }

  lemma {:induction false} SortKeepsSum(s: seq<NaicsGroup>)
    ensures SumSizes(StableSort.Sort(s, ByCountDesc)) == SumSizes(s)
  {
    if s != [] {
      SortKeepsSum(s[1..]);
      InsertKeepsSum(s[0], StableSort.Sort(s[1..], ByCountDesc));
    }
  }

  /** The number of contracts that fall in the groups of `codes`, counted group by group. */
  function CodeTotal(codes: seq<string>, cs: seq<Types.Contract>): nat
  {
    if codes == [] then 0 else Seqs.Count(cs, InGroup(codes[0])) + CodeTotal(codes[1..], cs)
  }

  /** The number of groups among `codes` that `c` belongs in. */
  function Hits(codes: seq<string>, c: Types.Contract): nat
  {
    if codes == [] then 0 else (if InGroup(codes[0])(c) then 1 else 0) + Hits(codes[1..], c)
  }

  lemma {:induction false} GroupsTotal(codes: seq<string>, cs: seq<Types.Contract>)
    ensures SumSizes(GroupsOf(codes, cs)) == CodeTotal(codes, cs)
  {
    if codes != [] {
      GroupsTotal(codes[1..], cs);
      assert GroupsOf(codes, cs)[1..] == GroupsOf(codes[1..], cs);
      Seqs.CountIsFilterLength(cs, InGroup(codes[0]));
    }
  }

  /** With distinct codes a contract lands in at most one group. */
  lemma {:induction false} HitsOfDistinct(codes: seq<string>, c: Types.Contract)
    requires JsObjects.Distinct(codes)
    ensures Hits(codes, c) == if HasNaics(c) && Strings.Trim(c.naics) in codes then 1 else 0
  {
    if codes != [] {
      HitsOfDistinct(codes[1..], c);
      assert codes[0] !in codes[1..];
    }
  }

  lemma {:induction false} CodeTotalStep(codes: seq<string>, cs: seq<Types.Contract>)
    requires cs != []
    ensures CodeTotal(codes, cs) == Hits(codes, cs[0]) + CodeTotal(codes, cs[1..])
  {
    if codes != [] {
      CodeTotalStep(codes[1..], cs);
    }
  }

  lemma {:induction false} CodeTotalCovering(codes: seq<string>, cs: seq<Types.Contract>)
    requires JsObjects.Distinct(codes)
    requires forall i :: 0 <= i < |cs| && HasNaics(cs[i]) ==> Strings.Trim(cs[i].naics) in codes
    ensures CodeTotal(codes, cs) == Seqs.Count(cs, HasNaics)
  {
    if cs == [] {
      if codes != [] {
        CodeTotalCovering(codes[1..], cs);
      }
    } else {
      CodeTotalStep(codes, cs);
      HitsOfDistinct(codes, cs[0]);
      CodeTotalCovering(codes, cs[1..]);
    }
  }

  /** Whether a group's code contains the lower-cased search term, ignoring case. */
  function CodeMatches(lowerSearch: string): NaicsGroup -> bool
  {
    (g: NaicsGroup) => Strings.Contains(Strings.Lower(g.code), lowerSearch)
  }

  /** `filteredGroups`: all groups for an empty search, else those whose code contains it. */
  function FilteredGroups(groups: seq<NaicsGroup>, search: string): (r: seq<NaicsGroup>)
    ensures forall i :: 0 <= i < |groups| ==>
      (groups[i] in r <==> Strings.Contains(Strings.Lower(groups[i].code), Strings.Lower(search)))
    ensures forall i :: 0 <= i < |r| ==> r[i] in groups
  {
    if search == "" then
      EmptySearchKeepsAll(groups);
      groups
    else Seqs.Filter(groups, CodeMatches(Strings.Lower(search)))
  }

  /** The empty-search shortcut agrees with the filter: every code contains "". */
  lemma EmptySearchKeepsAll(groups: seq<NaicsGroup>)
    ensures Seqs.Filter(groups, CodeMatches("")) == groups
    ensures forall i :: 0 <= i < |groups| ==> Strings.Contains(Strings.Lower(groups[i].code), "")
  {
    forall i | 0 <= i < |groups|
      ensures CodeMatches("")(groups[i])
    {
      Strings.ContainsEmpty(Strings.Lower(groups[i].code));
    }
    Seqs.FilterAll(groups, CodeMatches(""));
  }

  /** Filtering keeps the groups in their listed order. */
  lemma FilteredGroupsOrder(groups: seq<NaicsGroup>, search: string)
    ensures Seqs.IsSubseq(FilteredGroups(groups, search), groups)
  {
    if search == "" {
      EmptySearchKeepsAll(groups);
    }
    Seqs.FilterIsSubseq(groups, CodeMatches(Strings.Lower(search)));
  }

  /** `handleToggleBookmark`: an empty id is ignored; otherwise the contract's bookmark flips. */
  method HandleToggleBookmark(store: Bookmarks.BookmarkStore, id: string)
    modifies store
    ensures id == "" ==> store.bookmarks == old(store.bookmarks)
    ensures id != "" ==> store.bookmarks == Bookmarks.Toggled(old(store.bookmarks), id, Bookmarks.Contract)
  {
    if id == "" {
      return;
    }
    store.Toggle(id, Bookmarks.Contract);
  }
}
