/**
 * The events list of `components/EventsScreen.tsx`: copies of the event list
 * split at the current time, upcoming events soonest first and past events
 * most recent first. `new Date(e.date)` is the parameter `parse`, which gives
 * the time in milliseconds or `None` for an invalid date; an invalid date
 * fails both comparisons with `now`.
 */
module Events {
  import opened Options
  import Types
  import Seqs
  import StableSort

  /** The time an event's date parses to (`getTime()`), or 0 where it does not parse. */
  function TimeOf(parse: string -> Option<int>, e: Types.Event): int
  {
    match parse(e.date)
    case Some(t) => t
    case None => 0
  }

  predicate Parses(parse: string -> Option<int>, e: Types.Event)
  {
    parse(e.date).Some?
  }

  /** `new Date(e.date) >= now`. */
  predicate IsUpcoming(parse: string -> Option<int>, now: int, e: Types.Event)
  {
    parse(e.date).Some? && parse(e.date).value >= now
  }

  /** `new Date(e.date) < now`. */
  predicate IsPast(parse: string -> Option<int>, now: int, e: Types.Event)
  {
    parse(e.date).Some? && parse(e.date).value < now
  }

  function UpcomingFn(parse: string -> Option<int>, now: int): Types.Event -> bool
  {
    e => IsUpcoming(parse, now, e)
  }

  function PastFn(parse: string -> Option<int>, now: int): Types.Event -> bool
  {
    e => IsPast(parse, now, e)
  }

  function ParsesFn(parse: string -> Option<int>): Types.Event -> bool
  {
    e => Parses(parse, e)
  }

  /** The comparator `a - b` on times: earliest first. */
  function Ascending(parse: string -> Option<int>): Types.Event -> int
  {
    e => TimeOf(parse, e)
  }

  /** The comparator `b - a` on times: latest first. */
  function Descending(parse: string -> Option<int>): Types.Event -> int
  {
    e => -TimeOf(parse, e)
  }

  /** `upcomingEvents`. */
  function Upcoming(events: seq<Types.Event>, parse: string -> Option<int>, now: int): seq<Types.Event>
  {
    StableSort.Sort(Seqs.Filter(events, UpcomingFn(parse, now)), Ascending(parse))
  }

  /** `pastEvents`. */
  function Past(events: seq<Types.Event>, parse: string -> Option<int>, now: int): seq<Types.Event>
  {
    StableSort.Sort(Seqs.Filter(events, PastFn(parse, now)), Descending(parse))
  }

  /**
   * The upcoming list holds, as many times as the input does, exactly the
   * events dated at or after `now`, in ascending order of time.
   */
  lemma UpcomingMeaning(events: seq<Types.Event>, parse: string -> Option<int>, now: int)
    ensures var u := Upcoming(events, parse, now);
      multiset(u) == multiset(Seqs.Filter(events, UpcomingFn(parse, now)))
      && (forall e :: e in u <==> e in events && IsUpcoming(parse, now, e))
      && (forall i, j :: 0 <= i < j < |u| ==> TimeOf(parse, u[i]) <= TimeOf(parse, u[j]))
  {
    var f := Seqs.Filter(events, UpcomingFn(parse, now));
    var u := Upcoming(events, parse, now);
    StableSort.SortSorts(f, Ascending(parse));
    SameMembers(f, u);
    forall i, j | 0 <= i < j < |u|
      ensures TimeOf(parse, u[i]) <= TimeOf(parse, u[j])
    {
      assert Ascending(parse)(u[i]) <= Ascending(parse)(u[j]);
    }
  }

  /**
   * The past list holds, as many times as the input does, exactly the events
   * dated before `now`, in descending order of time.
   */
  lemma PastMeaning(events: seq<Types.Event>, parse: string -> Option<int>, now: int)
    ensures var p := Past(events, parse, now);
      multiset(p) == multiset(Seqs.Filter(events, PastFn(parse, now)))
      && (forall e :: e in p <==> e in events && IsPast(parse, now, e))
      && (forall i, j :: 0 <= i < j < |p| ==> TimeOf(parse, p[i]) >= TimeOf(parse, p[j]))
  {
    var f := Seqs.Filter(events, PastFn(parse, now));
    var p := Past(events, parse, now);
    StableSort.SortSorts(f, Descending(parse));
    SameMembers(f, p);
    forall i, j | 0 <= i < j < |p|
      ensures TimeOf(parse, p[i]) >= TimeOf(parse, p[j])
    {
      assert Descending(parse)(p[i]) <= Descending(parse)(p[j]);
    }
  }

  /** Upcoming events at the same time keep their input order (the sort is stable). */
  lemma UpcomingSameTimeOrder(events: seq<Types.Event>, parse: string -> Option<int>, now: int, t: int)
    ensures Seqs.Filter(Upcoming(events, parse, now), StableSort.HasKey(Ascending(parse), t))
         == Seqs.Filter(Seqs.Filter(events, UpcomingFn(parse, now)), StableSort.HasKey(Ascending(parse), t))
  {
    StableSort.SortStable(Seqs.Filter(events, UpcomingFn(parse, now)), Ascending(parse), t);
  }

  /** Past events at the same time (sort key `k`, minus the time) keep their input order. */
  lemma PastSameTimeOrder(events: seq<Types.Event>, parse: string -> Option<int>, now: int, k: int)
    ensures Seqs.Filter(Past(events, parse, now), StableSort.HasKey(Descending(parse), k))
         == Seqs.Filter(Seqs.Filter(events, PastFn(parse, now)), StableSort.HasKey(Descending(parse), k))
  {
    StableSort.SortStable(Seqs.Filter(events, PastFn(parse, now)), Descending(parse), k);
  }

  lemma SameMembers<T>(a: seq<T>, b: seq<T>)
    requires multiset(a) == multiset(b)
    ensures forall x :: x in a <==> x in b
  {
    forall x
      ensures x in a <==> x in b
    {
      assert x in a <==> x in multiset(a);
      assert x in b <==> x in multiset(b);
    }
  }

  /**
   * Every event whose date parses is in exactly one of the two lists, as many
   * times as it occurs in the input; an event whose date does not parse is in
   * neither.
   */
  lemma EventsSplit(events: seq<Types.Event>, parse: string -> Option<int>, now: int)
    ensures multiset(Upcoming(events, parse, now)) + multiset(Past(events, parse, now))
         == multiset(Seqs.Filter(events, ParsesFn(parse)))
    ensures forall e :: e in events && !Parses(parse, e) ==>
              e !in Upcoming(events, parse, now) && e !in Past(events, parse, now)
  {
    UpcomingMeaning(events, parse, now);
    PastMeaning(events, parse, now);
    SplitParseable(events, parse, now);
  }

  lemma {:induction false} SplitParseable(events: seq<Types.Event>, parse: string -> Option<int>, now: int)
    ensures multiset(Seqs.Filter(events, UpcomingFn(parse, now))) + multiset(Seqs.Filter(events, PastFn(parse, now)))
         == multiset(Seqs.Filter(events, ParsesFn(parse)))
  {
    if events != [] {
      SplitParseable(events[1..], parse, now);
    }
  }
}
