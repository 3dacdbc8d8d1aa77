/**
 * The contracts screen of `components/ContractsScreen.tsx`: the split into
 * awarded contracts and open RFPs, the centre and type drop-down options,
 * the list filter applied to both tabs, and the bookmark toggle.
 */
module ContractsScreen {
  import opened Options
  import Types
  import Strings
  import Seqs
  import FilterOptions
  import Bookmarks

  // ------------------------------------------------------------ the two tabs

  /** `item.is_rfp === true`. */
  predicate IsRfp(c: Types.Contract)
  {
    c.is_rfp == Some(true)
  }

  function IsRfpFn(): Types.Contract -> bool
  {
    c => IsRfp(c)
  }

  function NotRfpFn(): Types.Contract -> bool
  {
    c => !IsRfp(c)
  }

  /** The `forEach` that pushes each item onto `rfps` or `contracts`. */
  method Partition(items: seq<Types.Contract>) returns (contractList: seq<Types.Contract>, rfpList: seq<Types.Contract>)
    ensures rfpList == Seqs.Filter(items, IsRfpFn())
    ensures contractList == Seqs.Filter(items, NotRfpFn())
  {
    contractList, rfpList := [], [];
    for k := 0 to |items|
      invariant rfpList == Seqs.Filter(items[..k], IsRfpFn())
      invariant contractList == Seqs.Filter(items[..k], NotRfpFn())
    {
      var item := items[k];
      assert items[..k + 1] == items[..k] + [item];
      Seqs.FilterSnoc(items[..k], item, IsRfpFn());
      Seqs.FilterSnoc(items[..k], item, NotRfpFn());
      if item.is_rfp == Some(true) {
        rfpList := rfpList + [item];
      } else {
        contractList := contractList + [item];
      }
    }
    assert items[..|items|] == items;
  }

  /**
   * The RFP tab holds exactly the items whose `is_rfp` is `true`, the
   * contracts tab every other item (absent or `false`), both in input order,
   * and together they hold every item exactly once.
   */
  lemma PartitionMeaning(items: seq<Types.Contract>)
    ensures var rfps := Seqs.Filter(items, IsRfpFn());
      var contracts := Seqs.Filter(items, NotRfpFn());
      multiset(rfps) + multiset(contracts) == multiset(items)
      && |rfps| + |contracts| == |items|
      && (forall c :: c in rfps ==> c.is_rfp == Some(true))
      && (forall c :: c in contracts ==> c.is_rfp != Some(true))
      && Seqs.IsSubseq(rfps, items) && Seqs.IsSubseq(contracts, items)
  {
    Seqs.FilterPartition(items, IsRfpFn(), NotRfpFn());
    Seqs.FilterIsSubseq(items, IsRfpFn());
    Seqs.FilterIsSubseq(items, NotRfpFn());
  }

  // ------------------------------------------------------------ drop-down options

  /** A truthy centre other than `'Unknown Center'`. */
  function CenterText(c: Types.Contract): Option<string>
  {
    if c.center != "" && c.center != "Unknown Center" then Some(c.center) else None
  }

  /** A truthy contract type. */
  function TypeText(c: Types.Contract): Option<string>
  {
    if c.contract_type != "" then Some(c.contract_type) else None
  }

  /** The `forEach` that fills the two `Set`s, with `Array.from(...).sort()` kept up to date. */
  method UniqueOptions(items: seq<Types.Contract>) returns (centers: seq<string>, types: seq<string>)
    ensures Strings.StrictlySorted(centers) && Strings.Elems(centers) == FilterOptions.OptionSet(items, CenterText)
    ensures Strings.StrictlySorted(types) && Strings.Elems(types) == FilterOptions.OptionSet(items, TypeText)
  {
    centers, types := [], [];
    for k := 0 to |items|
      invariant Strings.StrictlySorted(centers) && Strings.Elems(centers) == FilterOptions.OptionSet(items[..k], CenterText)
      invariant Strings.StrictlySorted(types) && Strings.Elems(types) == FilterOptions.OptionSet(items[..k], TypeText)
    {
      var c := items[k];
      assert items[..k + 1] == items[..k] + [c];
      FilterOptions.OptionSetSnoc(items[..k], c, CenterText);
      FilterOptions.OptionSetSnoc(items[..k], c, TypeText);
      if c.center != "" && c.center != "Unknown Center" {
        centers := Strings.InsertSorted(c.center, centers);
      }
      if c.contract_type != "" {
        types := Strings.InsertSorted(c.contract_type, types);
      }
    }
    assert items[..|items|] == items;
  }

  /** The centre options are the item centres other than `''` and `'Unknown Center'`. */
  lemma CenterOptionsMeaning(items: seq<Types.Contract>, x: string)
    ensures x in FilterOptions.OptionSet(items, CenterText)
        <==> x != "" && x != "Unknown Center" && exists i :: 0 <= i < |items| && items[i].center == x
  {
    if x != "" && x != "Unknown Center" && exists i :: 0 <= i < |items| && items[i].center == x {
      var i :| 0 <= i < |items| && items[i].center == x;
      assert CenterText(items[i]) == Some(x);
    }
  }

  /** The type options are the item types other than `''`. */
  lemma TypeOptionsMeaning(items: seq<Types.Contract>, x: string)
    ensures x in FilterOptions.OptionSet(items, TypeText)
        <==> x != "" && exists i :: 0 <= i < |items| && items[i].contract_type == x
  {
    if x != "" && exists i :: 0 <= i < |items| && items[i].contract_type == x {
      var i :| 0 <= i < |items| && items[i].contract_type == x;
      assert TypeText(items[i]) == Some(x);
    }
  }

  // ------------------------------------------------------------ filterItems

  /** The lowercase search is empty or inside the lowercase name, contractor or number. */
  predicate TextMatch(c: Types.Contract, lowerSearch: string)
  {
    lowerSearch == ""
    || Strings.Contains(Strings.Lower(c.contract_name), lowerSearch)
    || Strings.Contains(Strings.Lower(c.contractor_name), lowerSearch)
    || Strings.Contains(Strings.Lower(c.contract_number), lowerSearch)
  }

  predicate Keeps(c: Types.Contract, search: string, center: string, kind: string)
  {
    TextMatch(c, Strings.Lower(search))
    && (center == "all" || c.center == center)
    && (kind == "all" || c.contract_type == kind)
  }

  function KeepsFn(search: string, center: string, kind: string): Types.Contract -> bool
  {
    c => Keeps(c, search, center, kind)
  }

  /** `filterItems(items)` for the current search, centre and type. */
  function FilterItems(items: seq<Types.Contract>, search: string, center: string, kind: string): seq<Types.Contract>
  {
    Seqs.Filter(items, KeepsFn(search, center, kind))
  }

  /** An item is kept iff it passes all three tests; the result keeps input order. */
  lemma FilterItemsMeaning(items: seq<Types.Contract>, search: string, center: string, kind: string)
    ensures forall i :: 0 <= i < |items| ==>
              (items[i] in FilterItems(items, search, center, kind) <==> Keeps(items[i], search, center, kind))
    ensures forall c :: c in FilterItems(items, search, center, kind) ==> c in items
    ensures Seqs.IsSubseq(FilterItems(items, search, center, kind), items)
  {
    Seqs.FilterIsSubseq(items, KeepsFn(search, center, kind));
  }

  /** With no search and both drop-downs on `'all'` the list is returned unchanged. */
  lemma FilterItemsUnfiltered(items: seq<Types.Contract>)
    ensures FilterItems(items, "", "all", "all") == items
  {
    assert Strings.Lower("") == "";
    Seqs.FilterAll(items, KeepsFn("", "all", "all"));
  }

  // ------------------------------------------------------------ bookmarks

  /** `handleToggleBookmark`: an empty id is ignored; otherwise the contract's bookmark flips. */
  method HandleToggleBookmark(store: Bookmarks.BookmarkStore, id: string)
    modifies store
    ensures id == "" ==> store.bookmarks == old(store.bookmarks)
    ensures id != "" ==> store.bookmarks == Bookmarks.Toggled(old(store.bookmarks), id, Bookmarks.Contract)
    ensures id != "" ==> store.IsBookmarked(id, Bookmarks.Contract) == !old(store.IsBookmarked(id, Bookmarks.Contract))
  {
    if id == "" {
      return;
    }
    store.Toggle(id, Bookmarks.Contract);
  }
}
