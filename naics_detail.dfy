/**
 * The NAICS detail screen of `components/NaicsDetail.tsx`: it looks a code up in
 * the NAICS registry rows, splits the row's description into a summary and a
 * list of illustrative examples, and publishes the result (or an error) in
 * the screen's `loading` / `data` / `error` state.
 */
module NaicsDetail {
  import opened Options
  import Strings
  import Seqs
  import Loose

  /** `RawNaicsRow`: the code may be a string or a number in the spreadsheet. */
  datatype RawNaicsRow = RawNaicsRow(code: Loose.Value, title: string, description: string)

  /** `NaicsData`: what the screen renders. */
  datatype NaicsData = NaicsData(title: string, description: string, examples: seq<string>)

  const NotAvailable := "NAICS data is not available or failed to load."
  const NoDescription := "No description available."
  const ExamplesMarker := "Illustrative Examples:"
  const CrossRefMarker := "Cross-References."
  /** The bullet `•` as its UTF-8 bytes read as Windows-1252 text, one of the split separators. */
  const Bullet := "\U{00E2}\U{20AC}\U{00A2}"

  function NotFound(code: string): string
  {
    "Code " + code + " not found in the 2022 NAICS Registry."
  }

  // ------------------------------------------------------------ lookup

  /** `String(r.Code).trim() === code.trim()`. */
  predicate Matches(row: RawNaicsRow, code: string)
  {
    Strings.Trim(Loose.ToString(row.code)) == Strings.Trim(code)
  }

  function MatchesCode(code: string): RawNaicsRow -> bool
  {
    (row: RawNaicsRow) => Matches(row, code)
  }

  /** `naicsData.find(...)`, as the index of the first matching row. */
  function FindRow(rows: seq<RawNaicsRow>, code: string): Option<nat>
  {
    Seqs.FindIndex(rows, MatchesCode(code))
  }

  // ------------------------------------------------------------ examples

  /** A piece holds none of the separators `;`, newline and the mis-encoded bullet. */
  predicate Plain(s: string)
  {
    ';' !in s && '\n' !in s && !Strings.Contains(s, Bullet)
  }

  /** `s.split(/;|â€¢|\n/)`. */
  function SplitExamples(s: string): (r: seq<string>)
    ensures |r| >= 1
    ensures Strings.IsPrefix(r[0], s)
    ensures forall i :: 0 <= i < |r| ==> Plain(r[i])
    decreases |s|
  {
    if s == [] then [""]
    else if s[0] == ';' || s[0] == '\n' then [""] + SplitExamples(s[1..])
    else if Strings.IsPrefix(Bullet, s) then [""] + SplitExamples(s[|Bullet|..])
    else
      var rest := SplitExamples(s[1..]);
      var first := [s[0]] + rest[0];
      assert first == s[..|first|];
      PrependPlain(s[0], rest[0], s);
      [first] + rest[1..]
  }

  /** A separator-free piece stays separator-free when a non-separator is put in front. */
  lemma PrependPlain(c: char, p: string, s: string)
    requires Plain(p) && c != ';' && c != '\n'
    requires s != [] && s[0] == c && Strings.IsPrefix(p, s[1..]) && !Strings.IsPrefix(Bullet, s)
    ensures Plain([c] + p)
  {
    var q := [c] + p;
    assert q[1..] == p;
  }

  /** `.split(...).map(s => s.trim()).filter(s => s.length > 0)`. */
  function Examples(part: string): seq<string>
  {
    Seqs.Filter(Strings.TrimAll(SplitExamples(part)), Strings.NonEmpty)
  }

  /** A slice of a separator-free text is separator-free. */
  lemma PlainSlice(s: string, a: nat, b: nat)
    requires a <= b <= |s| && Plain(s)
    ensures Plain(s[a..b])
  {
    SliceKeepsAbsence(s, a, b, Bullet);
  }

  /** Every example is non-empty, trimmed and free of separators. */
  lemma ExamplesShape(part: string)
    ensures forall e :: e in Examples(part) ==> e != "" && Strings.Trim(e) == e && Plain(e)
  {
    var ps := SplitExamples(part);
    var ts := Strings.TrimAll(ps);
    forall e | e in Examples(part)
      ensures e != "" && Strings.Trim(e) == e && Plain(e)
    {
      var i :| 0 <= i < |ts| && ts[i] == e;
      var a, b := Strings.TrimBounds(ps[i]);
      PlainSlice(ps[i], a, b);
      Strings.TrimIdempotent(ps[i]);
    }
  }

  /** A separator-free text splits into itself. */
  lemma {:induction false} SplitOfPlain(s: string)
    requires Plain(s)
    ensures SplitExamples(s) == [s]
  {
    if s != [] {
      assert s[0] in s;
      assert !Strings.IsPrefix(Bullet, s);
      PlainSlice(s, 1, |s|);
      SplitOfPlain(s[1..]);
      assert [s[0]] + s[1..] == s;
    }
  }

  /** A text without separators yields its trimmed self as the only example, if that is not blank. */
  lemma ExamplesOfPlain(s: string)
    requires Plain(s)
    ensures Strings.Trim(s) != "" ==> Examples(s) == [Strings.Trim(s)]
    ensures Strings.Trim(s) == "" ==> Examples(s) == []
  {
    SplitOfPlain(s);
    assert Strings.TrimAll([s]) == [Strings.Trim(s)];
  }

  /** Splitting consumes a leading `;` or newline piece by piece. */
  lemma {:induction false} SplitAtSeparator(a: string, sep: char, b: string)
    requires Plain(a) && (sep == ';' || sep == '\n')
    ensures SplitExamples(a + [sep] + b) == [a] + SplitExamples(b)
    decreases |a|
  {
    var s := a + [sep] + b;
    if a == [] {
      assert s[1..] == b;
    } else {
      assert s[1..] == a[1..] + [sep] + b;
      assert s[0] == a[0] && a[0] in a;
      NoBulletBefore(a, sep, b);
      PlainSlice(a, 1, |a|);
      SplitAtSeparator(a[1..], sep, b);
      assert [a[0]] + a[1..] == a;
    }
  }

  /** Splitting consumes a leading bullet in the same way. */
  lemma {:induction false} SplitAtBullet(a: string, b: string)
    requires Plain(a)
    ensures SplitExamples(a + Bullet + b) == [a] + SplitExamples(b)
    decreases |a|
  {
    var s := a + Bullet + b;
    if a == [] {
      assert s == Bullet + b && s[..|Bullet|] == Bullet && s[|Bullet|..] == b;
    } else {
      assert s[1..] == a[1..] + Bullet + b;
      assert s[0] == a[0] && a[0] in a;
      NoBulletBeforeBullet(a, b);
      PlainSlice(a, 1, |a|);
      SplitAtBullet(a[1..], b);
      assert [a[0]] + a[1..] == a;
    }
  }

  /** The bullet cannot overlap itself, so a non-empty separator-free piece before it hides it. */
  lemma NoBulletBeforeBullet(a: string, b: string)
    requires Plain(a) && a != []
    ensures !Strings.IsPrefix(Bullet, a + Bullet + b)
  {
    var s := a + Bullet + b;
    if |a| >= |Bullet| {
      assert s[..|Bullet|] == a[..|Bullet|];
    } else {
      assert s[|a|] == Bullet[0] && Bullet[|a|] != Bullet[0];
    }
  }

  /** The separators `SplitExamples` cuts at, in order. */
  function Cuts(s: string): (r: seq<string>)
    ensures forall i :: 0 <= i < |r| ==> r[i] == ";" || r[i] == "\n" || r[i] == Bullet
    decreases |s|
  {
    if s == [] then []
    else if s[0] == ';' || s[0] == '\n' then [[s[0]]] + Cuts(s[1..])
    else if Strings.IsPrefix(Bullet, s) then [Bullet] + Cuts(s[|Bullet|..])
    else Cuts(s[1..])
  }

  /** The pieces with the separators put back between them. */
  function Interleave(pieces: seq<string>, seps: seq<string>): string
    requires |pieces| == |seps| + 1
    decreases |seps|
  {
    if seps == [] then pieces[0] else pieces[0] + seps[0] + Interleave(pieces[1..], seps[1..])
  }

  /**
   * The split loses nothing: there is one more piece than cut, and putting
   * each separator back between its two pieces gives the text again.
   */
  lemma {:induction false} SplitRoundTrip(s: string)
    ensures |SplitExamples(s)| == |Cuts(s)| + 1
    ensures Interleave(SplitExamples(s), Cuts(s)) == s
    decreases |s|
  {
    if s == [] {
    } else if s[0] == ';' || s[0] == '\n' {
      SplitRoundTrip(s[1..]);
      assert [s[0]] + s[1..] == s;
    } else if Strings.IsPrefix(Bullet, s) {
      SplitRoundTrip(s[|Bullet|..]);
      assert Bullet + s[|Bullet|..] == s;
    } else {
      var rest := SplitExamples(s[1..]);
      SplitRoundTrip(s[1..]);
      InterleaveCons(s[0], rest, Cuts(s[1..]));
      assert [s[0]] + s[1..] == s;
    }
  }

  /** Putting a character in front of the first piece puts it in front of the whole. */
  lemma InterleaveCons(c: char, pieces: seq<string>, seps: seq<string>)
    requires |pieces| == |seps| + 1
    ensures Interleave([[c] + pieces[0]] + pieces[1..], seps) == [c] + Interleave(pieces, seps)
  {
    var q := [[c] + pieces[0]] + pieces[1..];
    assert q[0] == [c] + pieces[0] && q[1..] == pieces[1..];
  }

  /** A text that starts with a separator-free piece and a separator does not start with the bullet. */
  lemma NoBulletBefore(a: string, sep: char, b: string)
    requires Plain(a) && (sep == ';' || sep == '\n')
    ensures !Strings.IsPrefix(Bullet, a + [sep] + b)
  {
    var s := a + [sep] + b;
    if |a| >= |Bullet| {
      assert s[..|Bullet|] == a[..|Bullet|];
    } else {
      assert s[|a|] == sep && Bullet[|a|] != sep;
    }
  }

  // ------------------------------------------------------------ the detail record

  /** `matchedRow.Description || "No description available."`. */
  function RowDescription(row: RawNaicsRow): string
  {
    if row.description != "" then row.description else NoDescription
  }

  /** `matchedRow.Title || \`NAICS ${code}\``. */
  function RowTitle(row: RawNaicsRow, code: string): string
  {
    if row.title != "" then row.title else "NAICS " + code
  }

  /** The text between the examples marker and the first cross-reference marker after it. */
  function ExamplesSection(description: string, at: nat): (sec: string)
    requires Strings.OccursAt(description, ExamplesMarker, at)
    ensures Strings.IsPrefix(sec, description[at + |ExamplesMarker|..])
    ensures !Strings.Contains(sec, CrossRefMarker)
    ensures !Strings.Contains(description[at + |ExamplesMarker|..], CrossRefMarker)
            ==> sec == description[at + |ExamplesMarker|..]
    ensures Strings.Contains(description[at + |ExamplesMarker|..], CrossRefMarker)
            ==> Strings.OccursAt(description[at + |ExamplesMarker|..], CrossRefMarker, |sec|)
  {
    var rest := description[at + |ExamplesMarker|..];
    match Strings.IndexOf(rest, CrossRefMarker)
    case None => rest
    case Some(j) =>
      NoEarlierOccurrence(rest, CrossRefMarker, j);
      rest[..j]
  }

  /** A text cut before the first occurrence of `n` does not contain `n`. */
  lemma NoEarlierOccurrence(h: string, n: string, j: nat)
    requires j <= |h| && forall k: nat :: k < j ==> !Strings.OccursAt(h, n, k)
    ensures !Strings.Contains(h[..j], n) || n == []
  {
    Strings.ContainsIffOccurs(h[..j], n);
    if n != [] && Strings.Contains(h[..j], n) {
      var k: nat :| Strings.OccursAt(h[..j], n, k);
      assert h[k..k + |n|] == h[..j][k..k + |n|];
      assert Strings.OccursAt(h, n, k);
    }
  }

  /** The record the screen shows for a matched row: the specification of `Load`. */
  function Detail(row: RawNaicsRow, code: string): NaicsData
  {
    var description := RowDescription(row);
    match Strings.IndexOf(description, ExamplesMarker)
    case None => NaicsData(RowTitle(row, code), description, [])
    case Some(at) =>
      NaicsData(RowTitle(row, code), Strings.Trim(description[..at]),
                Examples(ExamplesSection(description, at)))
  }

  /** Without the examples marker the description is shown whole and untrimmed, with no examples. */
  lemma DetailWithoutMarker(row: RawNaicsRow, code: string)
    requires !Strings.Contains(RowDescription(row), ExamplesMarker)
    ensures Detail(row, code).description == RowDescription(row)
    ensures Detail(row, code).examples == []
  {
  }

  /**
   * With the marker, the summary is the trimmed text before its first
   * occurrence (so it never holds the marker), and the examples are the
   * pieces of the text between the marker and the first cross-reference
   * after it, each non-empty, trimmed and free of separators.
   */
  lemma DetailWithMarker(row: RawNaicsRow, code: string)
    requires Strings.Contains(RowDescription(row), ExamplesMarker)
    ensures var d := Detail(row, code);
      !Strings.Contains(d.description, ExamplesMarker)
      && forall e :: e in d.examples ==> e != "" && Strings.Trim(e) == e && Plain(e)
    ensures var description := RowDescription(row);
      var at := Strings.IndexOf(description, ExamplesMarker).value;
      Strings.OccursAt(description, ExamplesMarker, at)
      && (forall k: nat :: k < at ==> !Strings.OccursAt(description, ExamplesMarker, k))
      && Detail(row, code).description == Strings.Trim(description[..at])
      && Detail(row, code).examples == Examples(ExamplesSection(description, at))
  {
    var description := RowDescription(row);
    var at := Strings.IndexOf(description, ExamplesMarker).value;
    var before := description[..at];
    DetailAt(row, code, at);
    NoEarlierOccurrence(description, ExamplesMarker, at);
    var a, b := Strings.TrimBounds(before);
    SliceKeepsAbsence(before, a, b, ExamplesMarker);
    ExamplesShape(ExamplesSection(description, at));
  }

  /** `Detail` once the marker has been found at `at`. */
  lemma DetailAt(row: RawNaicsRow, code: string, at: nat)
    requires Strings.IndexOf(RowDescription(row), ExamplesMarker) == Some(at)
    ensures Strings.OccursAt(RowDescription(row), ExamplesMarker, at)
    ensures Detail(row, code).description == Strings.Trim(RowDescription(row)[..at])
    ensures Detail(row, code).examples == Examples(ExamplesSection(RowDescription(row), at))
  {
  }

  /** A slice of a text without `n` does not contain `n`. */
  lemma SliceKeepsAbsence(s: string, a: nat, b: nat, n: string)
    requires a <= b <= |s| && !Strings.Contains(s, n)
    ensures !Strings.Contains(s[a..b], n)
  {
    var t := s[a..b];
    Strings.ContainsIffOccurs(t, n);
    if Strings.Contains(t, n) {
      var k: nat :| Strings.OccursAt(t, n, k);
      assert forall m :: k <= m < k + |n| ==> t[m] == s[a + m];
      assert s[a + k..a + k + |n|] == t[k..k + |n|];
      Strings.ContainsAt(s, n, a + k);
    }
  }

  /** A blank title falls back to the code; a blank description to the fixed text. */
  lemma DetailTitle(row: RawNaicsRow, code: string)
    ensures row.title == "" ==> Detail(row, code).title == "NAICS " + code
    ensures row.title != "" ==> Detail(row, code).title == row.title
  {
  }

  /** A row without a description shows the fixed text and no examples. */
  lemma BlankDescription(row: RawNaicsRow, code: string)
    requires row.description == ""
    ensures Detail(row, code).description == NoDescription
    ensures Detail(row, code).examples == []
  {
    NoMarkerInDefault();
  }

  lemma NoMarkerInDefault()
    ensures !Strings.Contains(NoDescription, ExamplesMarker)
  {
    AbsentFirstChar(NoDescription, ExamplesMarker);
  }

  /** A text in which the first character of `n` never appears does not contain `n`. */
  lemma AbsentFirstChar(h: string, n: string)
    requires n != [] && n[0] !in h
    ensures !Strings.Contains(h, n)
  {
    Strings.ContainsIffOccurs(h, n);
  }

  // ------------------------------------------------------------ the screen

  class NaicsDetailView {
    var loading: bool
    var data: Option<NaicsData>
    var error: Option<string>

    /** The initial `useState` values. */
    constructor ()
      ensures loading && data.None? && error.None?
    {
      loading := true;
      data := None;
      error := None;
    }

    /**
     * The effect run for `code` over the registry rows (`None` when they were
     * never loaded). An error leaves the previously shown record in place.
     */
    method Load(code: string, naicsData: Option<seq<RawNaicsRow>>)
      modifies this
      ensures !loading
      ensures naicsData.None? || naicsData.value == [] ==>
                error == Some(NotAvailable) && data == old(data)
      ensures naicsData.Some? && naicsData.value != [] && FindRow(naicsData.value, code).None? ==>
                error == Some(NotFound(code)) && data == old(data)
      ensures naicsData.Some? && FindRow(naicsData.value, code).Some? ==>
                error.None? && data == Some(Detail(naicsData.value[FindRow(naicsData.value, code).value], code))
    {
      if naicsData.None? || |naicsData.value| == 0 {
        error := Some(NotAvailable);
        loading := false;
        return;
      }
      var rows := naicsData.value;
      var found := FindRow(rows, code);
      if found.Some? {
        var row := rows[found.value];
        var description := if row.description != "" then row.description else NoDescription;
        var examples: seq<string> := [];
        var examplesIndex := Strings.IndexOf(description, ExamplesMarker);
        if examplesIndex.Some? {
          var descPart := Strings.Trim(description[..examplesIndex.value]);
          var examplesPart := description[examplesIndex.value + |ExamplesMarker|..];
          var crossRefIndex := Strings.IndexOf(examplesPart, CrossRefMarker);
          if crossRefIndex.Some? {
            examplesPart := examplesPart[..crossRefIndex.value];
          }
          description := descPart;
          examples := Examples(examplesPart);
        }
        data := Some(NaicsData(if row.title != "" then row.title else "NAICS " + code, description, examples));
        error := None;
      } else {
        error := Some(NotFound(code));
      }
      loading := false;
    }
  }
}
