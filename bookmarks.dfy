/**
 * The bookmark store of `hooks/useBookmarks.ts`: a list of (id, type) pairs
 * replaced wholesale by `addBookmark` and `removeBookmark`, queried by
 * `isBookmarked`, and initialised from validated local-storage data.
 */
module Bookmarks {
  import opened Options
  import Seqs

  datatype BookmarkType = Contact | Contract | Session

  datatype Bookmark = Bookmark(id: string, kind: BookmarkType)

  /** No (id, type) pair occurs twice. */
  predicate NoDuplicates(bs: seq<Bookmark>)
  {
    forall i, j :: 0 <= i < j < |bs| ==> bs[i] != bs[j]
  }

  /** `bookmarks.some(b => b.id === id && b.type === type)`. */
  predicate Has(bs: seq<Bookmark>, id: string, kind: BookmarkType)
  {
    exists i :: 0 <= i < |bs| && bs[i] == Bookmark(id, kind)
  }

  /** `isBookmarked(id, type)` on the list `bs`. */
  predicate IsBookmarkedIn(bs: seq<Bookmark>, id: string, kind: BookmarkType)
  {
    id != "" && Has(bs, id, kind)
  }

  /** The list that `addBookmark(id, type)` leaves behind. */
  function Added(bs: seq<Bookmark>, id: string, kind: BookmarkType): seq<Bookmark>
  {
    if id == "" || Has(bs, id, kind) then bs else bs + [Bookmark(id, kind)]
  }

  function NotPair(id: string, kind: BookmarkType): Bookmark -> bool
  {
    (b: Bookmark) => !(b.id == id && b.kind == kind)
  }

  /** The list that `removeBookmark(id, type)` leaves behind. */
  function Removed(bs: seq<Bookmark>, id: string, kind: BookmarkType): seq<Bookmark>
  {
    if id == "" then bs else Seqs.Filter(bs, NotPair(id, kind))
  }

  /** The list after a screen's toggle handler: remove if bookmarked, else add. */
  function Toggled(bs: seq<Bookmark>, id: string, kind: BookmarkType): seq<Bookmark>
  {
    if IsBookmarkedIn(bs, id, kind) then Removed(bs, id, kind) else Added(bs, id, kind)
  }

  class BookmarkStore {
    var bookmarks: seq<Bookmark>

    /** `useState(loadBookmarksFromStorage)`. */
    constructor (initial: seq<Bookmark>)
      ensures bookmarks == initial
    {
      bookmarks := initial;
    }

    function IsBookmarked(id: string, kind: BookmarkType): bool
      reads this
    {
      IsBookmarkedIn(bookmarks, id, kind)
    }

    method AddBookmark(id: string, kind: BookmarkType)
      modifies this
      ensures bookmarks == Added(old(bookmarks), id, kind)
      ensures NoDuplicates(old(bookmarks)) ==> NoDuplicates(bookmarks)
      ensures id != "" ==> IsBookmarked(id, kind)
    {
      if id == "" {
        return;
      }
      AddedProperties(bookmarks, id, kind);
      if !Has(bookmarks, id, kind) {
        bookmarks := bookmarks + [Bookmark(id, kind)];
      }
    }

    method RemoveBookmark(id: string, kind: BookmarkType)
      modifies this
      ensures bookmarks == Removed(old(bookmarks), id, kind)
      ensures NoDuplicates(old(bookmarks)) ==> NoDuplicates(bookmarks)
      ensures !IsBookmarked(id, kind)
    {
      if id == "" {
        return;
      }
      RemovedProperties(bookmarks, id, kind);
      bookmarks := Seqs.Filter(bookmarks, NotPair(id, kind));
    }

    /** The `handleToggleBookmark` of the screens, on the shared store. */
    method Toggle(id: string, kind: BookmarkType)
      modifies this
      ensures bookmarks == Toggled(old(bookmarks), id, kind)
      ensures id != "" ==> IsBookmarked(id, kind) == !old(IsBookmarked(id, kind))
    {
      if IsBookmarked(id, kind) {
        RemoveBookmark(id, kind);
      } else {
        AddBookmark(id, kind);
      }
    }
  }

  // ------------------------------------------------------------ properties

  /** Adding: a present pair or an empty id changes nothing; otherwise the pair is appended. */
  lemma AddedProperties(bs: seq<Bookmark>, id: string, kind: BookmarkType)
    ensures Has(bs, id, kind) ==> Added(bs, id, kind) == bs
    ensures id != "" && !Has(bs, id, kind) ==> Added(bs, id, kind) == bs + [Bookmark(id, kind)]
    ensures id != "" ==> IsBookmarkedIn(Added(bs, id, kind), id, kind)
    ensures NoDuplicates(bs) ==> NoDuplicates(Added(bs, id, kind))
    ensures |Added(bs, id, kind)| <= |bs| + 1
  {
    if id != "" && !Has(bs, id, kind) {
      var r := bs + [Bookmark(id, kind)];
      assert r[|bs|] == Bookmark(id, kind);
    }
  }

  /** Removing drops exactly the matching entries and keeps the others in order. */
  lemma RemovedProperties(bs: seq<Bookmark>, id: string, kind: BookmarkType)
    ensures !IsBookmarkedIn(Removed(bs, id, kind), id, kind)
    ensures Seqs.IsSubseq(Removed(bs, id, kind), bs)
    ensures forall b :: b in bs && b != Bookmark(id, kind) ==> b in Removed(bs, id, kind)
    ensures NoDuplicates(bs) ==> NoDuplicates(Removed(bs, id, kind))
  {
    if id != "" {
      Seqs.FilterIsSubseq(bs, NotPair(id, kind));
      if NoDuplicates(bs) {
        FilterKeepsNoDuplicates(bs, NotPair(id, kind));
      }
    } else {
      Seqs.SubseqReflexive(bs);
    }
  }

  lemma {:induction false} FilterKeepsNoDuplicates(bs: seq<Bookmark>, p: Bookmark -> bool)
    requires NoDuplicates(bs)
    ensures NoDuplicates(Seqs.Filter(bs, p))
  {
    if bs != [] {
      FilterKeepsNoDuplicates(bs[1..], p);
      assert bs[0] !in bs[1..];
    }
  }

  /** Toggling twice restores whether the pair is bookmarked. */
  lemma ToggleTwice(bs: seq<Bookmark>, id: string, kind: BookmarkType)
    ensures IsBookmarkedIn(Toggled(Toggled(bs, id, kind), id, kind), id, kind)
         == IsBookmarkedIn(bs, id, kind)
  {
    var once := Toggled(bs, id, kind);
    AddedProperties(bs, id, kind);
    RemovedProperties(bs, id, kind);
    AddedProperties(once, id, kind);
    RemovedProperties(once, id, kind);
  }

  /** Adding the same pair twice leaves the size as after the first add. */
  lemma AddTwiceSameSize(bs: seq<Bookmark>, id: string, kind: BookmarkType)
    ensures Added(Added(bs, id, kind), id, kind) == Added(bs, id, kind)
  {
    AddedProperties(bs, id, kind);
    AddedProperties(Added(bs, id, kind), id, kind);
  }

  // ------------------------------------------------------------ storage

  /** A value produced by `JSON.parse`. */
  datatype Json =
    | JNull
    | JBool(b: bool)
    | JNum(n: int)
    | JStr(s: string)
    | JArr(items: seq<Json>)
    | JObj(fields: map<string, Json>)

  function TypeOf(s: string): Option<BookmarkType>
  {
    if s == "Contact" then Some(Contact)
    else if s == "Contract" then Some(Contract)
    else if s == "Session" then Some(Session)
    else None
  }

  /** A non-null object with a string `id` and a `type` among the BookmarkType values. */
  predicate ValidItem(item: Json)
  {
    item.JObj? && "id" in item.fields && item.fields["id"].JStr?
    && "type" in item.fields && item.fields["type"].JStr?
    && TypeOf(item.fields["type"].s).Some?
  }

  function ToBookmark(item: Json): Bookmark
    requires ValidItem(item)
  {
    Bookmark(item.fields["id"].s, TypeOf(item.fields["type"].s).value)
  }

  function ToBookmarks(items: seq<Json>): (r: seq<Bookmark>)
    requires forall i :: 0 <= i < |items| ==> ValidItem(items[i])
    ensures |r| == |items|
    ensures forall i :: 0 <= i < |items| ==> r[i] == ToBookmark(items[i])
  {
    if items == [] then [] else [ToBookmark(items[0])] + ToBookmarks(items[1..])
  }

  /**
   * `loadBookmarksFromStorage`: `stored` is `localStorage.getItem(...)` and
   * `parse` is `JSON.parse`, `None` where it throws.
   */
  function LoadBookmarks(stored: Option<string>, parse: string -> Option<Json>): (r: seq<Bookmark>)
    ensures r != [] ==> stored.Some? && stored.value != "" && parse(stored.value).Some?
    ensures r != [] ==> var j := parse(stored.value).value;
              j.JArr? && |r| == |j.items|
              && forall i :: 0 <= i < |r| ==> ValidItem(j.items[i]) && r[i] == ToBookmark(j.items[i])
    ensures stored.Some? && stored.value != "" && parse(stored.value).Some? && parse(stored.value).value.JArr?
            && (forall i :: 0 <= i < |parse(stored.value).value.items| ==> ValidItem(parse(stored.value).value.items[i]))
            ==> r == ToBookmarks(parse(stored.value).value.items)
  {
    if stored.None? || stored.value == "" then []
    else match parse(stored.value)
      case None => []
      case Some(j) =>
        if j.JArr? && forall i :: 0 <= i < |j.items| ==> ValidItem(j.items[i]) then ToBookmarks(j.items)
        else []
  }

  /** Any invalid element rejects the whole stored list. */
  lemma LoadRejectsInvalid(s: string, parse: string -> Option<Json>, i: nat)
    requires s != "" && parse(s).Some? && parse(s).value.JArr?
    requires i < |parse(s).value.items| && !ValidItem(parse(s).value.items[i])
    ensures LoadBookmarks(Some(s), parse) == []
  {
  }

  /**
   * A valid stored list loads whole: one bookmark per stored item, in order,
   * so two equal items give two equal bookmarks (duplicates are kept).
   */
  lemma LoadKeepsDuplicates(s: string, parse: string -> Option<Json>, i: nat, j: nat)
    requires s != "" && parse(s).Some? && parse(s).value.JArr?
    requires forall k :: 0 <= k < |parse(s).value.items| ==> ValidItem(parse(s).value.items[k])
    requires i < |parse(s).value.items| && j < |parse(s).value.items|
    requires parse(s).value.items[i] == parse(s).value.items[j]
    ensures |LoadBookmarks(Some(s), parse)| == |parse(s).value.items|
    ensures LoadBookmarks(Some(s), parse)[i] == LoadBookmarks(Some(s), parse)[j]
  {
  }
}
