/**
 * The saved-items screen of `components/BookmarksScreen.tsx`: the contacts
 * and contracts whose keys appear among the bookmarks of the matching type.
 * Contacts are keyed by e-mail, contracts by contract number.
 */
module BookmarksScreen {
  import opened Bookmarks
  import Types
  import Seqs

  /** `new Set(bookmarks.filter(b => b.type === kind).map(b => b.id))`. */
  function IdsOf(bs: seq<Bookmark>, kind: BookmarkType): (ids: set<string>)
    ensures forall id :: id in ids <==> Has(bs, id, kind)
  {
    var ids := set i | 0 <= i < |bs| && bs[i].kind == kind :: bs[i].id;
    assert forall id :: Has(bs, id, kind) ==> id in ids;
    ids
  }

  function EmailIn(ids: set<string>): Types.ProcessedContact -> bool
  {
    (c: Types.ProcessedContact) => c.base.email in ids
  }

  function NumberIn(ids: set<string>): Types.Contract -> bool
  {
    (c: Types.Contract) => c.contract_number in ids
  }

  /** `bookmarkedContacts`. */
  function BookmarkedContacts(bs: seq<Bookmark>, contacts: seq<Types.ProcessedContact>): seq<Types.ProcessedContact>
  {
    Seqs.Filter(contacts, EmailIn(IdsOf(bs, Contact)))
  }

  /** `bookmarkedContracts`. */
  function BookmarkedContracts(bs: seq<Bookmark>, contracts: seq<Types.Contract>): seq<Types.Contract>
  {
    Seqs.Filter(contracts, NumberIn(IdsOf(bs, Contract)))
  }

  /** A contact is listed iff its e-mail is the id of a Contact bookmark; the list keeps input order. */
  lemma BookmarkedContactsMeaning(bs: seq<Bookmark>, contacts: seq<Types.ProcessedContact>)
    ensures forall i :: 0 <= i < |contacts| ==>
              (contacts[i] in BookmarkedContacts(bs, contacts) <==> Has(bs, contacts[i].base.email, Contact))
    ensures forall c :: c in BookmarkedContacts(bs, contacts) ==> c in contacts
    ensures Seqs.IsSubseq(BookmarkedContacts(bs, contacts), contacts)
  {
    Seqs.FilterIsSubseq(contacts, EmailIn(IdsOf(bs, Contact)));
  }

  /**
   * A contract is listed iff its number is the id of a Contract bookmark, so
   * every contract sharing a bookmarked number is listed; the list keeps input order.
   */
  lemma BookmarkedContractsMeaning(bs: seq<Bookmark>, contracts: seq<Types.Contract>)
    ensures forall i :: 0 <= i < |contracts| ==>
              (contracts[i] in BookmarkedContracts(bs, contracts) <==> Has(bs, contracts[i].contract_number, Contract))
    ensures forall c :: c in BookmarkedContracts(bs, contracts) ==> c in contracts
    ensures Seqs.IsSubseq(BookmarkedContracts(bs, contracts), contracts)
  {
    Seqs.FilterIsSubseq(contracts, NumberIn(IdsOf(bs, Contract)));
  }

  /** Bookmarks of any other type change neither list. */
  lemma OtherTypesIgnored(bs: seq<Bookmark>, b: Bookmark,
                          contacts: seq<Types.ProcessedContact>, contracts: seq<Types.Contract>)
    ensures b.kind != Contact ==> BookmarkedContacts(bs + [b], contacts) == BookmarkedContacts(bs, contacts)
    ensures b.kind != Contract ==> BookmarkedContracts(bs + [b], contracts) == BookmarkedContracts(bs, contracts)
  {
    var bs' := bs + [b];
    assert forall i :: 0 <= i < |bs| ==> bs'[i] == bs[i];
    if b.kind != Contact {
      SameIds(bs', bs, Contact);
    }
    if b.kind != Contract {
      SameIds(bs', bs, Contract);
    }
  }

  /** Lists holding the same bookmarks, in any order and with any repetition, give the same lists. */
  lemma OrderIndependent(bs: seq<Bookmark>, bs': seq<Bookmark>,
                         contacts: seq<Types.ProcessedContact>, contracts: seq<Types.Contract>)
    requires forall b :: b in bs <==> b in bs'
    ensures BookmarkedContacts(bs, contacts) == BookmarkedContacts(bs', contacts)
    ensures BookmarkedContracts(bs, contracts) == BookmarkedContracts(bs', contracts)
  {
    SameMembers(bs, bs', Contact);
    SameMembers(bs, bs', Contract);
  }

  lemma SameMembers(bs: seq<Bookmark>, bs': seq<Bookmark>, kind: BookmarkType)
    requires forall b :: b in bs <==> b in bs'
    ensures IdsOf(bs, kind) == IdsOf(bs', kind)
  {
    forall id
      ensures Has(bs, id, kind) <==> Has(bs', id, kind)
    {
      assert Has(bs, id, kind) <==> Bookmark(id, kind) in bs;
      assert Has(bs', id, kind) <==> Bookmark(id, kind) in bs';
    }
    SameIds(bs, bs', kind);
  }

  lemma SameIds(bs: seq<Bookmark>, bs': seq<Bookmark>, kind: BookmarkType)
    requires forall id :: Has(bs, id, kind) <==> Has(bs', id, kind)
    ensures IdsOf(bs, kind) == IdsOf(bs', kind)
  {
  }
}
