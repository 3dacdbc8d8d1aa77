/**
 * The vendor database screen of `components/NvdbSearchScreen.tsx`: a search
 * over loosely typed vendor rows with three field filters, a paginated
 * result list, expandable cards and the NAICS chips of each card.
 */
module VendorSearch {
  import opened Options
  import opened Loose
  import Strings
  import Seqs

  // ------------------------------------------------------------ the row filter

  /** `String(row[a] || row[b] || '').toLowerCase()`. */
  function FieldText(row: Row, a: string, b: string): string
  {
    Strings.Lower(ToString(FirstTruthy(row, a, b)))
  }

  /** The lowercase NAICS text split on `,`, each piece trimmed. */
  function NaicsCodes(row: Row): seq<string>
  {
    Strings.TrimAll(Strings.Split(FieldText(row, "NAICS", "NAICS Code"), ','))
  }

  /** No code holds a comma. */
  lemma NaicsCodesHaveNoComma(row: Row)
    ensures forall i :: 0 <= i < |NaicsCodes(row)| ==> ',' !in NaicsCodes(row)[i]
  {
    var pieces := Strings.Split(FieldText(row, "NAICS", "NAICS Code"), ',');
    forall i | 0 <= i < |pieces|
      ensures ',' !in Strings.Trim(pieces[i])
    {
      Strings.TrimChars(pieces[i]);
    }
  }

  /** `codes.some(code => code.includes(naicsFilter.toLowerCase()))`, or no filter. */
  predicate MatchesNaics(row: Row, filter: string)
  {
    filter == ""
    || exists i :: 0 <= i < |NaicsCodes(row)| && Strings.Contains(NaicsCodes(row)[i], Strings.Lower(filter))
  }

  /** A lowercase substring test on the first truthy of two headers, or no filter. */
  predicate MatchesField(row: Row, a: string, b: string, filter: string)
  {
    filter == "" || Strings.Contains(FieldText(row, a, b), Strings.Lower(filter))
  }

  datatype Terms = Terms(search: string, naics: string, cage: string, state: string)

  /** The predicate of `nvdbData.filter(...)`. */
  predicate Keeps(t: Terms, row: Row)
  {
    MatchesSearch(row, t.search)
    && MatchesNaics(row, t.naics)
    && MatchesField(row, "CAGE", "CAGE Code", t.cage)
    && MatchesField(row, "State", "Physical State", t.state)
  }

  function KeepsFn(t: Terms): Row -> bool
  {
    row => Keeps(t, row)
  }

  /** `filteredData`. */
  function Filtered(rows: seq<Row>, t: Terms): seq<Row>
  {
    Seqs.Filter(rows, KeepsFn(t))
  }

  /** The result keeps the rows that pass every active filter, and only those, in input order. */
  lemma FilteredMeaning(rows: seq<Row>, t: Terms)
    ensures forall i :: 0 <= i < |rows| ==> (rows[i] in Filtered(rows, t) <==> Keeps(t, rows[i]))
    ensures forall r :: r in Filtered(rows, t) ==> r in rows && Keeps(t, r)
    ensures Seqs.IsSubseq(Filtered(rows, t), rows)
  {
    Seqs.FilterIsSubseq(rows, KeepsFn(t));
  }

  /** With all four terms empty every row is kept. */
  lemma NoTermsKeepsAll(rows: seq<Row>)
    ensures Filtered(rows, Terms("", "", "", "")) == rows
  {
    Seqs.FilterAll(rows, KeepsFn(Terms("", "", "", "")));
  }

  /** A NAICS filter matches a row whose chosen cell lists the filter, in any case, among other codes. */
  lemma NaicsListed(row: Row, filter: string, i: nat)
    requires i < |NaicsCodes(row)| && NaicsCodes(row)[i] == Strings.Lower(filter)
    ensures MatchesNaics(row, filter)
  {
    Strings.ContainsAt(NaicsCodes(row)[i], Strings.Lower(filter), 0);
  }

  // ------------------------------------------------------------ getField

  /** `getField(row, keys)`: the first listed header present with a non-null cell, else `'N/A'`. */
  function FieldOf(row: Row, keys: seq<string>): (v: Value)
    ensures v == Str("N/A") || exists i :: 0 <= i < |keys| && Get(row, keys[i]) == Some(v)
    ensures v != Null
  {
    if keys == [] then Str("N/A")
    else
      match Get(row, keys[0])
      case Some(c) =>
        if c != Null then c
        else
          var v := FieldOf(row, keys[1..]);
          assert forall i :: 0 < i < |keys| ==> keys[i] == keys[1..][i - 1];
          v
      case None =>
        var v := FieldOf(row, keys[1..]);
        assert forall i :: 0 < i < |keys| ==> keys[i] == keys[1..][i - 1];
        v
  }

  /** A header that is absent or null is skipped. */
  predicate Skipped(row: Row, key: string)
  {
    Get(row, key).None? || Get(row, key) == Some(Null)
  }

  /** The field is the cell of the first listed header that is not skipped; `'N/A'` when all are. */
  lemma {:induction false} FieldOfFirst(row: Row, keys: seq<string>, i: nat)
    requires i < |keys| && !Skipped(row, keys[i])
    requires forall j :: 0 <= j < i ==> Skipped(row, keys[j])
    ensures FieldOf(row, keys) == Get(row, keys[i]).value
  {
    if i > 0 {
      assert forall j :: 0 <= j < i - 1 ==> keys[1..][j] == keys[j + 1];
      FieldOfFirst(row, keys[1..], i - 1);
    }
  }

  lemma {:induction false} FieldOfNone(row: Row, keys: seq<string>)
    requires forall j :: 0 <= j < |keys| ==> Skipped(row, keys[j])
    ensures FieldOf(row, keys) == Str("N/A")
  {
    if keys != [] {
      assert forall j :: 0 <= j < |keys| - 1 ==> keys[1..][j] == keys[j + 1];
      FieldOfNone(row, keys[1..]);
    }
  }

  /** An empty string is a value: it stops the search like any other non-null cell. */
  lemma EmptyStringIsAField(row: Row, keys: seq<string>)
    requires keys != [] && Get(row, keys[0]) == Some(Str(""))
    ensures FieldOf(row, keys) == Str("")
  {
  }

  /** The `for (const key of keys)` loop of `getField`. */
  method GetField(row: Row, keys: seq<string>) returns (v: Value)
    ensures v == FieldOf(row, keys)
  {
    var i := 0;
    while i < |keys|
      invariant 0 <= i <= |keys|
      invariant FieldOf(row, keys[i..]) == FieldOf(row, keys)
    {
      assert keys[i..][1..] == keys[i + 1..];
      var cell := Get(row, keys[i]);
      if cell.Some? && cell.value != Null {
        return cell.value;
      }
      i := i + 1;
    }
    return Str("N/A");
  }

  // ------------------------------------------------------------ NAICS chips

  /** `String(naics).split(',')`. */
  function ChipPieces(naics: Value): seq<string>
  {
    Strings.Split(ToString(naics), ',')
  }

  /** The chips of a card: every piece when expanded, else the first three, each trimmed. */
  function Chips(naics: Value, expanded: bool): (chips: seq<string>)
    ensures |chips| <= |ChipPieces(naics)|
    ensures forall i :: 0 <= i < |chips| ==> chips[i] == Strings.Trim(ChipPieces(naics)[i])
  {
    var pieces := ChipPieces(naics);
    Strings.TrimAll(if expanded || |pieces| <= 3 then pieces else pieces[..3])
  }

  /** The `+k more...` label of a collapsed card with more than three pieces. */
  function MoreCount(naics: Value, expanded: bool): Option<nat>
  {
    if !expanded && |ChipPieces(naics)| > 3 then Some(|ChipPieces(naics)| - 3) else None
  }

  /** The chips and the `+k more` count together account for every piece; expanded shows all of them. */
  lemma ChipsAccount(naics: Value, expanded: bool)
    ensures var more := if MoreCount(naics, expanded).Some? then MoreCount(naics, expanded).value else 0;
      |Chips(naics, expanded)| + more == |ChipPieces(naics)|
    ensures expanded ==> MoreCount(naics, expanded).None? && |Chips(naics, expanded)| == |ChipPieces(naics)|
    ensures !expanded ==> |Chips(naics, expanded)| <= 3
  {
  }

  /** The chip block is shown unless `getField` fell back to `'N/A'`. */
  predicate ShowsNaics(naics: Value)
  {
    naics != Str("N/A")
  }

  // ------------------------------------------------------------ screen state

  /** `toggleExpand` on the set of expanded card indices. */
  function ToggledIndex(s: set<int>, index: int): (r: set<int>)
    ensures index in r <==> index !in s
    ensures forall j :: j != index ==> (j in r <==> j in s)
  {
    if index in s then s - {index} else s + {index}
  }

  /** Toggling the same card twice restores the set. */
  lemma ToggleTwice(s: set<int>, index: int)
    ensures ToggledIndex(ToggledIndex(s, index), index) == s
  {
  }

  /** The page size of the list and of each Load More. */
  const PageSize := 20

  class VendorSearchView {
    var searchTerm: string
    var naicsFilter: string
    var cageFilter: string
    var stateFilter: string
    var expandedCards: set<int>
    var visibleCount: nat

    /** The initial `useState` values. */
    constructor ()
      ensures searchTerm == "" && naicsFilter == "" && cageFilter == "" && stateFilter == ""
      ensures expandedCards == {} && visibleCount == PageSize
    {
      searchTerm := "";
      naicsFilter := "";
      cageFilter := "";
      stateFilter := "";
      expandedCards := {};
      visibleCount := PageSize;
    }

    function CurrentTerms(): Terms
      reads this
    {
      Terms(searchTerm, naicsFilter, cageFilter, stateFilter)
    }

    /** `filteredData` for the current terms. */
    function FilteredData(rows: seq<Row>): seq<Row>
      reads this
    {
      Filtered(rows, CurrentTerms())
    }

    /** `visibleData`: the first `visibleCount` filtered rows. */
    function VisibleData(rows: seq<Row>): (r: seq<Row>)
      reads this
      ensures |r| == if visibleCount < |FilteredData(rows)| then visibleCount else |FilteredData(rows)|
      ensures r == FilteredData(rows)[..|r|]
    {
      var f := FilteredData(rows);
      if visibleCount < |f| then f[..visibleCount] else f
    }

    /** The Load More button is shown when filtered rows remain hidden. */
    predicate ShowLoadMore(rows: seq<Row>)
      reads this
    {
      |VisibleData(rows)| < |FilteredData(rows)|
    }

    /** The number of non-empty filters among NAICS, CAGE and State. */
    function ActiveFiltersCount(): (n: nat)
      reads this
      ensures n <= 3
      ensures n == 0 <==> naicsFilter == "" && cageFilter == "" && stateFilter == ""
      ensures n == (if naicsFilter != "" then 1 else 0) + (if cageFilter != "" then 1 else 0)
                   + (if stateFilter != "" then 1 else 0)
    {
      var filters := [naicsFilter, cageFilter, stateFilter];
      Seqs.CountZero(filters, Strings.NonEmpty);
      assert filters[0] == naicsFilter && filters[1] == cageFilter && filters[2] == stateFilter;
      assert filters[1..] == [cageFilter, stateFilter] && filters[1..][1..] == [stateFilter];
      assert [stateFilter][1..] == [];
      assert Seqs.Count([stateFilter], Strings.NonEmpty) == (if stateFilter != "" then 1 else 0);
      assert Seqs.Count([cageFilter, stateFilter], Strings.NonEmpty)
          == (if cageFilter != "" then 1 else 0) + (if stateFilter != "" then 1 else 0);
      Seqs.Count([naicsFilter, cageFilter, stateFilter], Strings.NonEmpty)
    }

    method LoadMore()
      modifies this
      ensures visibleCount == old(visibleCount) + PageSize
      ensures searchTerm == old(searchTerm) && naicsFilter == old(naicsFilter)
      ensures cageFilter == old(cageFilter) && stateFilter == old(stateFilter)
      ensures expandedCards == old(expandedCards)
    {
      visibleCount := visibleCount + PageSize;
    }

    method ToggleExpand(index: int)
      modifies this
      ensures expandedCards == ToggledIndex(old(expandedCards), index)
      ensures searchTerm == old(searchTerm) && naicsFilter == old(naicsFilter)
      ensures cageFilter == old(cageFilter) && stateFilter == old(stateFilter)
      ensures visibleCount == old(visibleCount)
    {
      var next := expandedCards;
      if index in next {
        next := next - {index};
      } else {
        next := next + {index};
      }
      expandedCards := next;
    }

    /** Empties the four terms; the page size and the expanded cards stay. */
    method ClearFilters()
      modifies this
      ensures searchTerm == "" && naicsFilter == "" && cageFilter == "" && stateFilter == ""
      ensures expandedCards == old(expandedCards) && visibleCount == old(visibleCount)
      ensures ActiveFiltersCount() == 0
      ensures forall rows :: FilteredData(rows) == rows
    {
      searchTerm := "";
      naicsFilter := "";
      cageFilter := "";
      stateFilter := "";
      forall rows: seq<Row>
        ensures FilteredData(rows) == rows
      {
        NoTermsKeepsAll(rows);
      }
    }
  }

  /** The button is shown exactly when more filtered rows exist than the page count. */
  lemma ShowLoadMoreMeaning(v: VendorSearchView, rows: seq<Row>)
    ensures v.ShowLoadMore(rows) <==> v.visibleCount < |v.FilteredData(rows)|
  {
  }

}
