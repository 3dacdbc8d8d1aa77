/**
 * `components/ForecastsScreen.tsx`: resolving logical fields of a forecast
 * row through fuzzy header matching, matching a free-text point of contact
 * to a small-business specialist, and the screen's filter options and
 * filter.
 */
module Forecasts {
  import opened Options
  import opened Loose
  import Strings
  import Seqs
  import StableSort
  import Types
  import FilterOptions

  // ------------------------------------------------------------ FIELD_KEYS

  /** The logical fields of a forecast row. */
  datatype Field = Title | Naics | Amount | ReleaseDate | Office | Status | Phase | Poc

  /** `FIELD_KEYS`: the candidate headers of each field, in priority order. */
  function Aliases(f: Field): (r: seq<string>)
    ensures r != []
  {
    match f
    case Title => ["Project Description", "Title", "Requirement", "Description", "Project Name"]
    case Naics => ["NAICS Code", "NAICS"]
    case Amount => ["Estimated Value", "Dollar Range", "Value", "Cost", "Est Value"]
    case ReleaseDate => ["Release Date", "Solicitation", "Anticipated", "Date"]
    case Office => ["Buying Office", "Center", "Location", "Installation", "Activity", "Buying Activity", "Organization"]
    case Status => ["Acquisition Status", "Status"]
    case Phase => ["Acquisition Phase", "Phase"]
    case Poc => ["SmallBusinessSpecialistPOC", "Small Business Specialist", "POC", "Point of Contact", "Specialist"]
  }

  // ------------------------------------------------------------ normalizeKey

  predicate IsKeyChar(c: char)
  {
    'a' <= c <= 'z' || '0' <= c <= '9'
  }

  /** `key.toLowerCase().replace(/[^a-z0-9]/g, '')`. */
  function NormalizeKey(key: string): (r: string)
    ensures forall i :: 0 <= i < |r| ==> IsKeyChar(r[i])
    ensures forall i :: 0 <= i < |key| && IsKeyChar(Strings.LowerChar(key[i])) ==> Strings.LowerChar(key[i]) in r
  {
    Seqs.Filter(Strings.Lower(key), IsKeyChar)
  }

  /**
   * The normalised header is the lower-cased header's letters and digits,
   * every one of them and in order: a subsequence of it as long as their count.
   */
  lemma NormalizeKeyKeepsOrder(key: string)
    ensures Seqs.IsSubseq(NormalizeKey(key), Strings.Lower(key))
    ensures |NormalizeKey(key)| == Seqs.Count(Strings.Lower(key), IsKeyChar)
  {
    Seqs.FilterIsSubseq(Strings.Lower(key), IsKeyChar);
    Seqs.CountIsFilterLength(Strings.Lower(key), IsKeyChar);
  }

  lemma {:induction false} LowerOfKeyChars(s: string)
    requires forall i :: 0 <= i < |s| ==> IsKeyChar(s[i])
    ensures Strings.Lower(s) == s
  {
    if s != [] {
      LowerOfKeyChars(s[1..]);
      assert Strings.Lower(s) == [s[0]] + Strings.Lower(s[1..]);
    }
  }

  /** Normalising a normalised header changes nothing. */
  lemma NormalizeKeyIdempotent(key: string)
    ensures NormalizeKey(NormalizeKey(key)) == NormalizeKey(key)
  {
    var r := NormalizeKey(key);
    LowerOfKeyChars(r);
    Seqs.FilterAll(r, IsKeyChar);
  }

  // ------------------------------------------------------------ getValue

  /** `itemKeys.find(k => normalizeKey(k).includes(target))`, as an index. */
  function FindKey(row: Row, target: string): (r: Option<nat>)
    ensures r.Some? ==> r.value < |row| && Strings.Contains(NormalizeKey(row[r.value].0), target)
                        && forall j :: 0 <= j < r.value ==> !Strings.Contains(NormalizeKey(row[j].0), target)
    ensures r.None? ==> forall j :: 0 <= j < |row| ==> !Strings.Contains(NormalizeKey(row[j].0), target)
  {
    if row == [] then None
    else if Strings.Contains(NormalizeKey(row[0].0), target) then Some(0)
    else
      var r := FindKey(row[1..], target);
      assert forall j :: 0 < j < |row| ==> row[j] == row[1..][j - 1];
      if r.Some? then Some(r.value + 1) else None
  }

  /** What one alias yields: the value of the first matching key, unless that key is `''` or the value null. */
  function AliasValue(row: Row, alias: string): Option<Value>
  {
    match FindKey(row, NormalizeKey(alias))
    case Some(i) => if row[i].0 != "" && row[i].1 != Null then Some(row[i].1) else None
    case None => None
  }

  /** `getValue(item, possibleKeys)`, `None` for `null`: the first alias that yields a value. */
  function GetValueSpec(row: Row, aliases: seq<string>): Option<Value>
  {
    if aliases == [] then None
    else if AliasValue(row, aliases[0]).Some? then AliasValue(row, aliases[0])
    else GetValueSpec(row, aliases[1..])
  }

  /** The alias loop of `getValue`, returning as soon as an alias yields a value. */
  method GetValue(row: Row, aliases: seq<string>) returns (r: Option<Value>)
    ensures r == GetValueSpec(row, aliases)
  {
    var k := 0;
    while k < |aliases|
      invariant 0 <= k <= |aliases|
      invariant GetValueSpec(row, aliases) == GetValueSpec(row, aliases[k..])
    {
      assert aliases[k..][1..] == aliases[k + 1..];
      var target := NormalizeKey(aliases[k]);
      var found := FindKey(row, target);
      if found.Some? && row[found.value].0 != "" && row[found.value].1 != Null {
        return Some(row[found.value].1);
      }
      k := k + 1;
    }
    return None;
  }

  /** `getValue(item, FIELD_KEYS[field])`. */
  function FieldValue(row: Row, f: Field): Option<Value>
  {
    GetValueSpec(row, Aliases(f))
  }

  /**
   * `getValue` is null exactly when no alias yields a value; otherwise it is
   * what the first alias that yields a value finds.
   */
  lemma GetValueMeaning(row: Row, aliases: seq<string>)
    ensures GetValueSpec(row, aliases).None? <==> forall a :: 0 <= a < |aliases| ==> AliasValue(row, aliases[a]).None?
    ensures GetValueSpec(row, aliases).Some? ==>
              exists a :: 0 <= a < |aliases| && GetValueSpec(row, aliases) == AliasValue(row, aliases[a])
                          && forall b :: 0 <= b < a ==> AliasValue(row, aliases[b]).None?
  {
    GetValueNone(row, aliases);
    if GetValueSpec(row, aliases).Some? {
      var a := FirstYielding(row, aliases);
    }
  }

  lemma {:induction false} GetValueNone(row: Row, aliases: seq<string>)
    ensures GetValueSpec(row, aliases).None? <==> forall a :: 0 <= a < |aliases| ==> AliasValue(row, aliases[a]).None?
  {
    if aliases != [] {
      GetValueNone(row, aliases[1..]);
      assert forall a :: 0 < a < |aliases| ==> aliases[a] == aliases[1..][a - 1];
    }
  }

  /** The index of the alias whose value `getValue` returns. */
  lemma {:induction false} FirstYielding(row: Row, aliases: seq<string>) returns (a: nat)
    requires GetValueSpec(row, aliases).Some?
    ensures a < |aliases| && GetValueSpec(row, aliases) == AliasValue(row, aliases[a])
    ensures forall b :: 0 <= b < a ==> AliasValue(row, aliases[b]).None?
  {
    if AliasValue(row, aliases[0]).Some? {
      a := 0;
    } else {
      var a' := FirstYielding(row, aliases[1..]);
      a := a' + 1;
      assert aliases[1..][a'] == aliases[a];
      assert forall b :: 0 < b < a ==> aliases[b] == aliases[1..][b - 1];
    }
  }

  /** A value that `getValue` returns is non-null and sits under a non-empty header of the row. */
  lemma GetValueFromRow(row: Row, aliases: seq<string>)
    ensures GetValueSpec(row, aliases).Some? ==>
              GetValueSpec(row, aliases).value != Null
              && exists i :: 0 <= i < |row| && row[i].0 != "" && row[i].1 == GetValueSpec(row, aliases).value
  {
    GetValueMeaning(row, aliases);
    if GetValueSpec(row, aliases).Some? {
      var a :| 0 <= a < |aliases| && GetValueSpec(row, aliases) == AliasValue(row, aliases[a]);
      var i := FindKey(row, NormalizeKey(aliases[a])).value;
      assert row[i].1 == GetValueSpec(row, aliases).value;
    }
  }

  /**
   * The first alias that yields a value decides, wherever its header sits in
   * the row: with the release-date aliases, a `Release Date` column wins over
   * an `Effective Date` column placed before it.
   */
  lemma {:induction false} FirstYieldingAliasWins(row: Row, aliases: seq<string>, a: nat)
    requires a < |aliases| && AliasValue(row, aliases[a]).Some?
    requires forall b :: 0 <= b < a ==> AliasValue(row, aliases[b]).None?
    ensures GetValueSpec(row, aliases) == AliasValue(row, aliases[a])
  {
    if a > 0 {
      FirstYieldingAliasWins(row, aliases[1..], a - 1);
    }
  }

  /**
   * An alias looks only at the FIRST header containing it: when that header's
   * value is null the alias yields nothing, whatever later headers hold.
   */
  lemma FirstMatchingHeaderOnly(row: Row, alias: string, i: nat, j: nat)
    requires i < j < |row|
    requires forall k :: 0 <= k < i ==> !Strings.Contains(NormalizeKey(row[k].0), NormalizeKey(alias))
    requires Strings.Contains(NormalizeKey(row[i].0), NormalizeKey(alias)) && row[i].1 == Null
    requires Strings.Contains(NormalizeKey(row[j].0), NormalizeKey(alias)) && row[j].1 != Null
    ensures AliasValue(row, alias) == None
  {
    var found := FindKey(row, NormalizeKey(alias));
    assert found.Some? && found.value <= i;
  }

  // ------------------------------------------------------------ matcher

  /** `[^a-z0-9\s]` becomes a space. */
  function CleanChar(c: char): char
  {
    if IsKeyChar(c) || Strings.IsSpace(c) then c else ' '
  }

  function CleanChars(s: string): (r: string)
    ensures |r| == |s|
    ensures forall i :: 0 <= i < |s| ==> r[i] == CleanChar(s[i])
  {
    if s == [] then [] else [CleanChar(s[0])] + CleanChars(s[1..])
  }

  /** `.replace(/\s+/g, ' ')`: every maximal run of whitespace becomes one space. */
  function Collapse(s: string): string
    decreases |s|
  {
    if s == [] then []
    else if Strings.IsSpace(s[0]) then [' '] + Collapse(Strings.TrimStart(s[1..]))
    else [s[0]] + Collapse(s[1..])
  }

  /**
   * `Collapse` keeps the non-space characters, all of them and in order, and
   * writes whitespace as a space.
   */
  lemma CollapseChars(s: string)
    ensures forall i :: 0 <= i < |Collapse(s)| ==>
      Collapse(s)[i] == ' ' || (Collapse(s)[i] in s && !Strings.IsSpace(Collapse(s)[i]))
    ensures Seqs.Filter(Collapse(s), NotSpace) == Seqs.Filter(s, NotSpace)
  {
    CollapseFromInput(s);
    CollapseKeepsNonSpace(s);
  }

  lemma {:induction false} CollapseFromInput(s: string)
    ensures forall i :: 0 <= i < |Collapse(s)| ==>
      Collapse(s)[i] == ' ' || (Collapse(s)[i] in s && !Strings.IsSpace(Collapse(s)[i]))
    decreases |s|
  {
    if s != [] {
      if Strings.IsSpace(s[0]) {
        var t := Strings.TrimStart(s[1..]);
        CollapseFromInput(t);
        assert forall i :: 0 <= i < |t| ==> t[i] in s;
      } else {
        CollapseFromInput(s[1..]);
      }
    }
  }

  lemma {:induction false} CollapseKeepsNonSpace(s: string)
    ensures Seqs.Filter(Collapse(s), NotSpace) == Seqs.Filter(s, NotSpace)
    decreases |s|
  {
    if s != [] {
      if Strings.IsSpace(s[0]) {
        CollapseKeepsNonSpace(Strings.TrimStart(s[1..]));
        NonSpaceOfTrimStart(s[1..]);
      } else {
        CollapseKeepsNonSpace(s[1..]);
      }
    }
  }

  function NotSpace(c: char): bool
  {
    !Strings.IsSpace(c)
  }

  /** Trimming the start drops only whitespace. */
  lemma {:induction false} NonSpaceOfTrimStart(s: string)
    ensures Seqs.Filter(Strings.TrimStart(s), NotSpace) == Seqs.Filter(s, NotSpace)
    decreases |s|
  {
    if s != [] && Strings.IsSpace(s[0]) {
      NonSpaceOfTrimStart(s[1..]);
    }
  }

  /** The first character of `Collapse(s)` stands for the first character of `s`. */
  lemma CollapseHead(s: string)
    requires s != []
    ensures Collapse(s) != [] && Collapse(s)[0] == (if Strings.IsSpace(s[0]) then ' ' else s[0])
  {
  }

  /** `Collapse` never leaves two spaces side by side. */
  lemma {:induction false} CollapseSingleSpaces(s: string)
    ensures forall i, j :: 0 <= i && j == i + 1 && j < |Collapse(s)| ==>
      Collapse(s)[i] == ' ' ==> Collapse(s)[j] != ' '
    decreases |s|
  {
    if s != [] {
      if Strings.IsSpace(s[0]) {
        var t := Strings.TrimStart(s[1..]);
        CollapseSingleSpaces(t);
        if t != [] {
          CollapseHead(t);
        }
      } else {
        CollapseSingleSpaces(s[1..]);
      }
    }
  }

  /** A word (a stretch without whitespace) passes through `Collapse` untouched. */
  lemma {:induction false} CollapseWord(a: string, b: string)
    requires forall i :: 0 <= i < |a| ==> !Strings.IsSpace(a[i])
    ensures Collapse(a + b) == a + Collapse(b)
    decreases |a|
  {
    if a == [] {
      assert a + b == b;
    } else {
      assert (a + b)[0] == a[0] && (a + b)[1..] == a[1..] + b;
      CollapseWord(a[1..], b);
      assert a == [a[0]] + a[1..];
    }
  }

  /** Trimming the start removes a whole run of whitespace and stops at the next word. */
  lemma {:induction false} TrimStartOfRun(w: string, b: string)
    requires Strings.AllSpace(w)
    requires b == [] || !Strings.IsSpace(b[0])
    ensures Strings.TrimStart(w + b) == b
    decreases |w|
  {
    if w != [] {
      assert (w + b)[1..] == w[1..] + b;
      TrimStartOfRun(w[1..], b);
    }
  }

  /**
   * A maximal run of whitespace after a word becomes exactly one space: the
   * word, then `' '`, then the collapse of what follows the run.
   */
  lemma CollapseSeparates(a: string, w: string, b: string)
    requires forall i :: 0 <= i < |a| ==> !Strings.IsSpace(a[i])
    requires w != [] && Strings.AllSpace(w)
    requires b == [] || !Strings.IsSpace(b[0])
    ensures Collapse(a + w + b) == a + " " + Collapse(b)
  {
    assert a + w + b == a + (w + b);
    CollapseWord(a, w + b);
    CollapseRun(w, b);
  }

  lemma CollapseRun(w: string, b: string)
    requires w != [] && Strings.AllSpace(w)
    requires b == [] || !Strings.IsSpace(b[0])
    ensures Collapse(w + b) == " " + Collapse(b)
  {
    var r := w + b;
    assert Strings.IsSpace(r[0]);
    assert r[1..] == w[1..] + b;
    TrimStartOfRun(w[1..], b);
  }

  /** The matcher's `normalize`: lowercase, punctuation to spaces, runs of spaces collapsed, trimmed. */
  function Normalize(s: string): string
  {
    Strings.Trim(Collapse(CleanChars(Strings.Lower(s))))
  }

  /** Words of `[a-z0-9]` separated by single spaces. */
  predicate Spaced(r: string)
  {
    (forall i :: 0 <= i < |r| ==> IsKeyChar(r[i]) || r[i] == ' ')
    && (forall i, j :: 0 <= i < |r| && j == i + 1 && j < |r| ==> !(r[i] == ' ' && r[j] == ' '))
  }

  lemma CollapseSpaced(c: string)
    requires forall i :: 0 <= i < |c| ==> IsKeyChar(c[i]) || Strings.IsSpace(c[i])
    ensures Spaced(Collapse(c))
  {
    var k := Collapse(c);
    CollapseChars(c);
    CollapseSingleSpaces(c);
    forall i | 0 <= i < |k|
      ensures IsKeyChar(k[i]) || k[i] == ' '
    {
      if k[i] != ' ' {
        var j :| 0 <= j < |c| && c[j] == k[i];
      }
    }
  }

  /** Any slice of a spaced text is spaced. */
  lemma SliceSpaced(k: string, a: nat, b: nat)
    requires Spaced(k) && a <= b <= |k|
    ensures Spaced(k[a..b])
  {
    var r := k[a..b];
    assert forall i :: 0 <= i < |r| ==> r[i] == k[a + i];
  }

  lemma TrimSpaced(k: string)
    requires Spaced(k)
    ensures Spaced(Strings.Trim(k))
  {
    var a, b := Strings.TrimBounds(k);
    SliceSpaced(k, a, b);
  }

  /** A normalised name is words of `[a-z0-9]` separated by single spaces, with no space at either end. */
  lemma NormalizeShape(s: string)
    ensures Spaced(Normalize(s))
    ensures Normalize(s) == [] || (Normalize(s)[0] != ' ' && Normalize(s)[|Normalize(s)| - 1] != ' ')
  {
    var c := CleanChars(Strings.Lower(s));
    CollapseSpaced(c);
    TrimSpaced(Collapse(c));
  }

  /** `new Set(cleanPoc.split(' ')).has(token)`. */
  predicate IsPocToken(cleanPoc: string, token: string)
  {
    token in Strings.Split(cleanPoc, ' ')
  }

  /** The non-empty tokens of a normalised contact name. */
  function NameTokens(cleanName: string): seq<string>
  {
    Seqs.Filter(Strings.Split(cleanName, ' '), Strings.NonEmpty)
  }

  /** Strategy 1 (substring) or strategy 2 (every name token is a POC token), on normalised texts. */
  predicate NameMatches(cleanPoc: string, cleanName: string)
  {
    Strings.Contains(cleanPoc, cleanName)
    || (|NameTokens(cleanName)| > 0
        && forall i :: 0 <= i < |NameTokens(cleanName)| ==> IsPocToken(cleanPoc, NameTokens(cleanName)[i]))
  }

  /** The candidate test of the matcher's `filter`. */
  predicate IsCandidate(cleanPoc: string, c: Types.ProcessedContact)
  {
    NameMatches(cleanPoc, Normalize(c.base.name))
  }

  function CandidateOf(cleanPoc: string): Types.ProcessedContact -> bool
  {
    c => IsCandidate(cleanPoc, c)
  }

  function Candidates(cleanPoc: string, contacts: seq<Types.ProcessedContact>): (r: seq<Types.ProcessedContact>)
    ensures Seqs.IsSubseq(r, contacts)
    ensures forall i :: 0 <= i < |contacts| ==> (contacts[i] in r <==> IsCandidate(cleanPoc, contacts[i]))
    ensures forall i :: 0 <= i < |r| ==> r[i] in contacts && IsCandidate(cleanPoc, r[i])
  {
    Seqs.FilterIsSubseq(contacts, CandidateOf(cleanPoc));
    Seqs.Filter(contacts, CandidateOf(cleanPoc))
  }

  /** The sort key of `b.name.length - a.name.length`: longer names first. */
  function LongestFirst(c: Types.ProcessedContact): int
  {
    -|c.base.name|
  }

  /** `pocNameRaw ? String(pocNameRaw).trim() : null`. */
  function PocName(raw: Option<Value>): Option<string>
  {
    if raw.Some? && Truthy(raw.value) then Some(Strings.Trim(ToString(raw.value))) else None
  }

  /**
   * `candidates.sort(longest name first)[0]`: a candidate whose name is at
   * least as long as every candidate's and strictly longer than every
   * candidate listed before it (the sort is stable).
   */
  function Longest(cands: seq<Types.ProcessedContact>): (r: Option<Types.ProcessedContact>)
    ensures r.None? <==> cands == []
    ensures r.Some? ==> exists i :: 0 <= i < |cands| && cands[i] == r.value
                          && (forall j :: 0 <= j < |cands| ==> |cands[j].base.name| <= |r.value.base.name|)
                          && (forall j :: 0 <= j < i ==> |cands[j].base.name| < |r.value.base.name|)
  {
    if cands == [] then None
    else
      StableSort.SortHead(cands, LongestFirst);
      Some(StableSort.Sort(cands, LongestFirst)[0])
  }

  /** `matchedContact`, `None` for `null`. */
  function MatchedContact(raw: Option<Value>, contacts: seq<Types.ProcessedContact>): Option<Types.ProcessedContact>
  {
    var poc := PocName(raw);
    if poc.None? || poc.value == "" || contacts == [] then None
    else Longest(Candidates(Normalize(poc.value), contacts))
  }

  /** No match without a POC name or without contacts. */
  lemma NoPocNoMatch(raw: Option<Value>, contacts: seq<Types.ProcessedContact>)
    requires PocName(raw).None? || PocName(raw).value == "" || contacts == []
    ensures MatchedContact(raw, contacts).None?
  {
  }

  /**
   * With a POC name, the match is a longest candidate, and there is one
   * exactly when some contact is a candidate.
   */
  lemma MatchedContactMeaning(raw: Option<Value>, contacts: seq<Types.ProcessedContact>)
    requires PocName(raw).Some? && PocName(raw).value != ""
    ensures var clean := Normalize(PocName(raw).value);
      var m := MatchedContact(raw, contacts);
      (m.Some? ==> m.value in contacts && IsCandidate(clean, m.value)
                   && forall c :: c in contacts && IsCandidate(clean, c) ==> |c.base.name| <= |m.value.base.name|)
      && (m.None? <==> forall c :: c in contacts ==> !IsCandidate(clean, c))
  {
    if contacts != [] {
      var clean := Normalize(PocName(raw).value);
      LongestOfFilter(contacts, CandidateOf(clean));
      assert MatchedContact(raw, contacts) == Longest(Seqs.Filter(contacts, CandidateOf(clean)));
    }
  }

  lemma LongestOfFilter(contacts: seq<Types.ProcessedContact>, p: Types.ProcessedContact -> bool)
    ensures var r := Longest(Seqs.Filter(contacts, p));
      (r.Some? ==> r.value in contacts && p(r.value)
                   && forall c :: c in contacts && p(c) ==> |c.base.name| <= |r.value.base.name|)
      && (r.None? <==> forall c :: c in contacts ==> !p(c))
  {
    var cands := Seqs.Filter(contacts, p);
    var r := Longest(cands);
    if r.Some? {
      var i :| 0 <= i < |cands| && cands[i] == r.value
               && (forall j :: 0 <= j < |cands| ==> |cands[j].base.name| <= |r.value.base.name|);
      forall c | c in contacts && p(c)
        ensures |c.base.name| <= |r.value.base.name|
      {
        var k :| 0 <= k < |contacts| && contacts[k] == c;
        var j :| 0 <= j < |cands| && cands[j] == c;
      }
    } else {
      forall c | c in contacts
        ensures !p(c)
      {
        var k :| 0 <= k < |contacts| && contacts[k] == c;
      }
    }
  }

  /** A contact whose name normalises to nothing matches any POC (strategy 1). */
  lemma BlankNameAlwaysCandidate(cleanPoc: string, c: Types.ProcessedContact)
    requires Normalize(c.base.name) == ""
    ensures IsCandidate(cleanPoc, c)
  {
    Strings.ContainsEmpty(cleanPoc);
  }

  // ------------------------------------------------------------ facets

  /** `String(value).toLowerCase() === 'n/a'`. */
  predicate IsNotApplicable(v: Value)
  {
    Strings.Lower(ToString(v)) == "n/a"
  }

  /** `value && String(value).toLowerCase() !== 'n/a'`. */
  predicate Listed(v: Option<Value>)
  {
    v.Some? && Truthy(v.value) && !IsNotApplicable(v.value)
  }

  /** The trimmed option text one row contributes to a field's list, if any. */
  function OptionText(row: Row, aliases: seq<string>): Option<string>
  {
    ListedText(GetValueSpec(row, aliases))
  }

  /** `String(value).trim()` for a listed value, else nothing. */
  function ListedText(v: Option<Value>): Option<string>
  {
    if Listed(v) then Some(Strings.Trim(ToString(v.value))) else None
  }

  function OptionTextOf(aliases: seq<string>): Row -> Option<string>
  {
    row => OptionText(row, aliases)
  }

  /** The set of option texts a field collects over `rows`. */
  function FacetSet(rows: seq<Row>, aliases: seq<string>): set<string>
  {
    FilterOptions.OptionSet(rows, OptionTextOf(aliases))
  }

  /**
   * The four option lists, built in one pass over the rows as the four `Set`s
   * are: each is sorted, free of duplicates, and holds exactly the listed
   * trimmed values of its field.
   */
  method Facets(forecasts: seq<Row>) returns (offices: seq<string>, statuses: seq<string>,
                                               phases: seq<string>, naics: seq<string>)
    ensures Strings.StrictlySorted(offices) && Strings.Elems(offices) == FacetSet(forecasts, Aliases(Office))
    ensures Strings.StrictlySorted(statuses) && Strings.Elems(statuses) == FacetSet(forecasts, Aliases(Status))
    ensures Strings.StrictlySorted(phases) && Strings.Elems(phases) == FacetSet(forecasts, Aliases(Phase))
    ensures Strings.StrictlySorted(naics) && Strings.Elems(naics) == FacetSet(forecasts, Aliases(Naics))
  {
    offices, statuses, phases, naics := [], [], [], [];
    var k := 0;
    while k < |forecasts|
      invariant 0 <= k <= |forecasts|
      invariant Strings.StrictlySorted(offices) && Strings.Elems(offices) == FacetSet(forecasts[..k], Aliases(Office))
      invariant Strings.StrictlySorted(statuses) && Strings.Elems(statuses) == FacetSet(forecasts[..k], Aliases(Status))
      invariant Strings.StrictlySorted(phases) && Strings.Elems(phases) == FacetSet(forecasts[..k], Aliases(Phase))
      invariant Strings.StrictlySorted(naics) && Strings.Elems(naics) == FacetSet(forecasts[..k], Aliases(Naics))
    {
      var item := forecasts[k];
      assert forecasts[..k + 1] == forecasts[..k] + [item];
      var office := GetValue(item, Aliases(Office));
      var status := GetValue(item, Aliases(Status));
      var phase := GetValue(item, Aliases(Phase));
      var code := GetValue(item, Aliases(Naics));
      assert OptionText(item, Aliases(Office)) == ListedText(office);
      assert OptionText(item, Aliases(Status)) == ListedText(status);
      assert OptionText(item, Aliases(Phase)) == ListedText(phase);
      assert OptionText(item, Aliases(Naics)) == ListedText(code);
      FilterOptions.OptionSetSnoc(forecasts[..k], item, OptionTextOf(Aliases(Office)));
      FilterOptions.OptionSetSnoc(forecasts[..k], item, OptionTextOf(Aliases(Status)));
      FilterOptions.OptionSetSnoc(forecasts[..k], item, OptionTextOf(Aliases(Phase)));
      FilterOptions.OptionSetSnoc(forecasts[..k], item, OptionTextOf(Aliases(Naics)));
      offices := FilterOptions.AddOption(offices, ListedText(office));
      statuses := FilterOptions.AddOption(statuses, ListedText(status));
      phases := FilterOptions.AddOption(phases, ListedText(phase));
      naics := FilterOptions.AddOption(naics, ListedText(code));
      k := k + 1;
    }
    assert forecasts[..k] == forecasts;
  }

  // ------------------------------------------------------------ filteredData

  /** A facet filter: `'all'`, or the resolved value is truthy and trims to the filter. */
  predicate MatchesFacet(v: Option<Value>, filter: string)
  {
    filter == "all" || (v.Some? && Truthy(v.value) && Strings.Trim(ToString(v.value)) == filter)
  }

  datatype Filters = Filters(search: string, office: string, status: string, phase: string, naics: string)

  predicate Keeps(f: Filters, row: Row)
  {
    MatchesSearch(row, f.search)
    && MatchesFacet(FieldValue(row, Office), f.office)
    && MatchesFacet(FieldValue(row, Status), f.status)
    && MatchesFacet(FieldValue(row, Phase), f.phase)
    && MatchesFacet(FieldValue(row, Naics), f.naics)
  }

  function KeepsFn(f: Filters): Row -> bool
  {
    row => Keeps(f, row)
  }

  /** `filteredData`: the rows that pass every filter, in their original order. */
  function FilteredData(forecasts: seq<Row>, f: Filters): (r: seq<Row>)
    ensures Seqs.IsSubseq(r, forecasts)
    ensures forall i :: 0 <= i < |forecasts| ==> (forecasts[i] in r <==> Keeps(f, forecasts[i]))
    ensures forall i :: 0 <= i < |r| ==> Keeps(f, r[i])
  {
    Seqs.FilterIsSubseq(forecasts, KeepsFn(f));
    Seqs.Filter(forecasts, KeepsFn(f))
  }

  /** With no search and every facet at `'all'`, every row is shown. */
  lemma FilteredDataUnfiltered(forecasts: seq<Row>)
    ensures FilteredData(forecasts, Filters("", "all", "all", "all", "all")) == forecasts
  {
    Seqs.FilterAll(forecasts, KeepsFn(Filters("", "all", "all", "all", "all")));
  }

  /** The detail title: `getValue(item, FIELD_KEYS.title) || 'N/A'`. */
  function DetailTitle(row: Row): (r: Value)
    ensures Truthy(r)
    ensures r != Str("N/A") ==> FieldValue(row, Title) == Some(r)
    ensures FieldValue(row, Title).Some? && Truthy(FieldValue(row, Title).value) ==> r == FieldValue(row, Title).value
  {
    var v := FieldValue(row, Title);
    if v.Some? && Truthy(v.value) then v.value else Str("N/A")
  }
}
