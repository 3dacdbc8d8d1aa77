/**
 * The option lists behind the filter drop-downs: each screen adds the text a
 * record contributes (if any) to a `Set` and shows `Array.from(set).sort()`.
 * The list is kept sorted and free of duplicates while it is built.
 */
module FilterOptions {
  import opened Options
  import Strings

  /** The set of option texts that `items` contribute. */
  function OptionSet<T>(items: seq<T>, text: T -> Option<string>): set<string>
  {
    set i | 0 <= i < |items| && text(items[i]).Some? :: text(items[i]).value
  }

  /** One more record adds its text, if it has one, and nothing else. */
  lemma OptionSetSnoc<T>(items: seq<T>, item: T, text: T -> Option<string>)
    ensures OptionSet(items + [item], text)
         == OptionSet(items, text) + (if text(item).Some? then {text(item).value} else {})
  {
    var all := items + [item];
    forall x | x in OptionSet(all, text)
      ensures x in OptionSet(items, text) || text(item) == Some(x)
    {
      var i :| 0 <= i < |all| && text(all[i]) == Some(x);
      if i < |items| {
        assert all[i] == items[i];
      } else {
        assert all[i] == item;
      }
    }
    forall x | x in OptionSet(items, text)
      ensures x in OptionSet(all, text)
    {
      var i :| 0 <= i < |items| && text(items[i]) == Some(x);
      assert all[i] == items[i];
    }
    if text(item).Some? {
      assert all[|items|] == item;
    }
  }

  /** `set.add(text)` on the sorted, duplicate-free list of the set's elements. */
  function AddOption(opts: seq<string>, text: Option<string>): (r: seq<string>)
    requires Strings.StrictlySorted(opts)
    ensures Strings.StrictlySorted(r)
    ensures Strings.Elems(r) == Strings.Elems(opts) + (if text.Some? then {text.value} else {})
  {
    if text.Some? then Strings.InsertSorted(text.value, opts) else opts
  }
}
