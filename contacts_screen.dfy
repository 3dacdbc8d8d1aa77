/**
 * The contacts directory of `components/ContactsScreen.tsx`: the centre and
 * position drop-down options, the list filter, the bookmark toggle keyed by
 * e-mail, and the vCard text and file name produced by "save contact".
 */
module ContactsScreen {
  import opened Options
  import Types
  import Strings
  import Seqs
  import FilterOptions
  import Bookmarks

  // ------------------------------------------------------------ drop-down options

  /** A truthy centre other than `'Unknown Center'`. */
  function CenterText(c: Types.ProcessedContact): Option<string>
  {
    if c.center != "" && c.center != "Unknown Center" then Some(c.center) else None
  }

  /** A truthy position. */
  function PositionText(c: Types.ProcessedContact): Option<string>
  {
    if c.base.position != "" then Some(c.base.position) else None
  }

  /** The `forEach` that fills the two `Set`s, with `Array.from(...).sort()` kept up to date. */
  method UniqueOptions(contacts: seq<Types.ProcessedContact>) returns (centers: seq<string>, positions: seq<string>)
    ensures Strings.StrictlySorted(centers) && Strings.Elems(centers) == FilterOptions.OptionSet(contacts, CenterText)
    ensures Strings.StrictlySorted(positions) && Strings.Elems(positions) == FilterOptions.OptionSet(contacts, PositionText)
  {
    centers, positions := [], [];
    for k := 0 to |contacts|
      invariant Strings.StrictlySorted(centers) && Strings.Elems(centers) == FilterOptions.OptionSet(contacts[..k], CenterText)
      invariant Strings.StrictlySorted(positions) && Strings.Elems(positions) == FilterOptions.OptionSet(contacts[..k], PositionText)
    {
      var c := contacts[k];
      assert contacts[..k + 1] == contacts[..k] + [c];
      FilterOptions.OptionSetSnoc(contacts[..k], c, CenterText);
      FilterOptions.OptionSetSnoc(contacts[..k], c, PositionText);
      if c.center != "" && c.center != "Unknown Center" {
        centers := Strings.InsertSorted(c.center, centers);
      }
      if c.base.position != "" {
        positions := Strings.InsertSorted(c.base.position, positions);
      }
    }
    assert contacts[..|contacts|] == contacts;
  }

  /** The centre options are the contact centres other than `''` and `'Unknown Center'`. */
  lemma CenterOptionsMeaning(contacts: seq<Types.ProcessedContact>, x: string)
    ensures x in FilterOptions.OptionSet(contacts, CenterText)
        <==> x != "" && x != "Unknown Center" && exists i :: 0 <= i < |contacts| && contacts[i].center == x
  {
    if x != "" && x != "Unknown Center" && exists i :: 0 <= i < |contacts| && contacts[i].center == x {
      var i :| 0 <= i < |contacts| && contacts[i].center == x;
      assert CenterText(contacts[i]) == Some(x);
    }
  }

  /** The position options are the contact positions other than `''`. */
  lemma PositionOptionsMeaning(contacts: seq<Types.ProcessedContact>, x: string)
    ensures x in FilterOptions.OptionSet(contacts, PositionText)
        <==> x != "" && exists i :: 0 <= i < |contacts| && contacts[i].base.position == x
  {
    if x != "" && exists i :: 0 <= i < |contacts| && contacts[i].base.position == x {
      var i :| 0 <= i < |contacts| && contacts[i].base.position == x;
      assert PositionText(contacts[i]) == Some(x);
    }
  }

  // ------------------------------------------------------------ filteredContacts

  /** The lowercase search is empty or inside the lowercase name or title. */
  predicate TextMatch(c: Types.ProcessedContact, lowerSearch: string)
  {
    lowerSearch == ""
    || Strings.Contains(Strings.Lower(c.base.name), lowerSearch)
    || Strings.Contains(Strings.Lower(c.base.title), lowerSearch)
  }

  predicate Keeps(c: Types.ProcessedContact, search: string, center: string, position: string)
  {
    TextMatch(c, Strings.Lower(search))
    && (center == "all" || c.center == center)
    && (position == "all" || c.base.position == position)
  }

  function KeepsFn(search: string, center: string, position: string): Types.ProcessedContact -> bool
  {
    c => Keeps(c, search, center, position)
  }

  /** `filteredContacts` for the current search, centre and position. */
  function FilteredContacts(contacts: seq<Types.ProcessedContact>, search: string, center: string, position: string)
    : seq<Types.ProcessedContact>
  {
    Seqs.Filter(contacts, KeepsFn(search, center, position))
  }

  /** A contact is kept iff it passes all three tests; the result keeps input order. */
  lemma FilteredContactsMeaning(contacts: seq<Types.ProcessedContact>, search: string, center: string, position: string)
    ensures forall i :: 0 <= i < |contacts| ==>
              (contacts[i] in FilteredContacts(contacts, search, center, position)
               <==> Keeps(contacts[i], search, center, position))
    ensures forall c :: c in FilteredContacts(contacts, search, center, position) ==> c in contacts
    ensures Seqs.IsSubseq(FilteredContacts(contacts, search, center, position), contacts)
  {
    Seqs.FilterIsSubseq(contacts, KeepsFn(search, center, position));
  }

  /**
   * With no search and both drop-downs on `'all'` -- exactly when the screen's
   * `hasActiveFilters` is false -- the list is returned unchanged.
   */
  lemma FilteredContactsUnfiltered(contacts: seq<Types.ProcessedContact>)
    ensures FilteredContacts(contacts, "", "all", "all") == contacts
  {
    assert Strings.Lower("") == "";
    Seqs.FilterAll(contacts, KeepsFn("", "all", "all"));
  }

  // ------------------------------------------------------------ bookmarks

  /** `handleToggleBookmark(contact.email)`: an empty id is ignored; otherwise the contact's bookmark flips. */
  method HandleToggleBookmark(store: Bookmarks.BookmarkStore, email: string)
    modifies store
    ensures email == "" ==> store.bookmarks == old(store.bookmarks)
    ensures email != "" ==> store.bookmarks == Bookmarks.Toggled(old(store.bookmarks), email, Bookmarks.Contact)
    ensures email != "" ==> store.IsBookmarked(email, Bookmarks.Contact) == !old(store.IsBookmarked(email, Bookmarks.Contact))
  {
    if email == "" {
      return;
    }
    store.Toggle(email, Bookmarks.Contact);
  }

  // ------------------------------------------------------------ save contact

  /** The eleven lines of the vCard 3.0 text, values inserted as they are. */
  function CardLines(c: Types.ProcessedContact): seq<string>
  {
    [ "BEGIN:VCARD",
      "VERSION:3.0",
      "FN:" + c.base.name,
      "ORG:" + c.center,
      "TITLE:" + c.base.title,
      "TEL;TYPE=WORK,VOICE:" + c.base.phone,
      "TEL;TYPE=WORK,FAX:" + c.base.fax,
      "EMAIL:" + c.base.email,
      "ADR;TYPE=WORK:;;" + c.base.address,
      "PHOTO;VALUE=URL:" + c.base.photo,
      "END:VCARD" ]
  }

  /** The template literal of `handleSaveContact`: the lines joined by line feeds. */
  function VCard(c: Types.ProcessedContact): string
  {
    Strings.Join(CardLines(c), '\n')
  }

  /** None of the inserted values holds a line feed. */
  predicate SingleLineFields(c: Types.ProcessedContact)
  {
    '\n' !in c.base.name && '\n' !in c.center && '\n' !in c.base.title
    && '\n' !in c.base.phone && '\n' !in c.base.fax && '\n' !in c.base.email
    && '\n' !in c.base.address && '\n' !in c.base.photo
  }

  /**
   * When no value holds a line feed, reading the card back line by line gives
   * exactly eleven lines: BEGIN, VERSION, one property per field carrying that
   * field's value, and END.
   */
  lemma VCardReadsBack(c: Types.ProcessedContact)
    requires SingleLineFields(c)
    ensures var lines := Strings.Split(VCard(c), '\n');
      |lines| == 11
      && lines[0] == "BEGIN:VCARD" && lines[1] == "VERSION:3.0" && lines[10] == "END:VCARD"
      && lines[2] == "FN:" + c.base.name
      && lines[3] == "ORG:" + c.center
      && lines[4] == "TITLE:" + c.base.title
      && lines[5] == "TEL;TYPE=WORK,VOICE:" + c.base.phone
      && lines[6] == "TEL;TYPE=WORK,FAX:" + c.base.fax
      && lines[7] == "EMAIL:" + c.base.email
      && lines[8] == "ADR;TYPE=WORK:;;" + c.base.address
      && lines[9] == "PHOTO;VALUE=URL:" + c.base.photo
  {
    var ls := CardLines(c);
    forall i | 0 <= i < |ls|
      ensures '\n' !in ls[i]
    {
      NoFeedInConcat(ls[i], i, c);
    }
    Strings.JoinThenSplit(ls, '\n');
  }

  lemma NoFeedInConcat(line: string, i: nat, c: Types.ProcessedContact)
    requires SingleLineFields(c) && i < 11 && line == CardLines(c)[i]
    ensures '\n' !in line
  {
    var heads := ["BEGIN:VCARD", "VERSION:3.0", "FN:", "ORG:", "TITLE:", "TEL;TYPE=WORK,VOICE:",
                  "TEL;TYPE=WORK,FAX:", "EMAIL:", "ADR;TYPE=WORK:;;", "PHOTO;VALUE=URL:", "END:VCARD"];
    var tails := ["", "", c.base.name, c.center, c.base.title, c.base.phone, c.base.fax,
                  c.base.email, c.base.address, c.base.photo, ""];
    assert line == heads[i] + tails[i];
    assert '\n' !in heads[i];
    assert '\n' !in tails[i];
  }

  /** `name.replace(/\s/g, '_')`. */
  function Underscored(s: string): (r: string)
    ensures |r| == |s|
    ensures forall i :: 0 <= i < |s| ==> r[i] == (if Strings.IsSpace(s[i]) then '_' else s[i])
  {
    if s == [] then [] else [if Strings.IsSpace(s[0]) then '_' else s[0]] + Underscored(s[1..])
  }

  /** The download name: the contact name with every whitespace character replaced, plus `.vcf`. */
  function FileName(name: string): (r: string)
    ensures |r| == |name| + 4 && r[|name|..] == ".vcf"
    ensures forall i :: 0 <= i < |r| ==> !Strings.IsSpace(r[i])
    ensures forall i :: 0 <= i < |name| && !Strings.IsSpace(name[i]) ==> r[i] == name[i]
    ensures forall i :: 0 <= i < |name| && Strings.IsSpace(name[i]) ==> r[i] == '_'
  {
    var u := Underscored(name);
    var r := u + ".vcf";
    assert r[|name|..] == ".vcf";
    SuffixHasNoSpace();
    assert forall i :: 0 <= i < |name| ==> r[i] == u[i];
    assert forall i :: |name| <= i < |r| ==> r[i] == ".vcf"[i - |name|];
    r
  }

  lemma SuffixHasNoSpace()
    ensures forall i :: 0 <= i < 4 ==> !Strings.IsSpace(".vcf"[i])
  {
  }
}
