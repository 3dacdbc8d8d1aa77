/**
 * The live event guide of `components/EventGuideScreen.tsx`: the agenda
 * sessions, the audience poll and the vote lock, the organiser's "push
 * delay" and announcement actions, session bookmarks, and the derived
 * current session and personal schedule. Times are milliseconds; the
 * current time is a parameter.
 */
module EventGuide {
  import opened Options
  import Seqs
  import Bookmarks

  datatype Speaker = Speaker(id: string, name: string, role: string, avatar: string)

  datatype Track = MainStage | Workshop | Networking | Breakout

  datatype Session = Session(
    id: string, title: string, description: string, startTime: int, endTime: int,
    location: string, track: Track, speakers: seq<Speaker>, isLive: Option<bool>)

  datatype PollOption = PollOption(id: string, text: string, votes: int)

  datatype Poll = Poll(id: string, question: string, options: seq<PollOption>, isActive: bool, totalVotes: int)

  datatype Tab = Agenda | MySchedule | Live

  const MinuteMs := 60000

  /** `15 * 60000`: the delay that `pushDelay` adds. */
  const DelayMs := 15 * MinuteMs

  const DelayNotice := "Schedule Update: All sessions delayed by 15 mins."
  const LunchNotice := "Reminder: Networking lunch starts in 10 minutes in the Lobby."

  // ------------------------------------------------------------ mock data

  /** `getRelativeTime(offset)`: `offset` minutes from `now`. */
  function RelativeTime(now: int, offsetMinutes: int): int
  {
    now + offsetMinutes * MinuteMs
  }

  const Keynote := Session("1", "Opening Keynote: Future of Small Business",
    "Join the NASA Administrator for a vision of the future.", 0, 0, "Main Auditorium", MainStage,
    [Speaker("s1", "Dr. Sarah Smith", "Administrator", "")], None)
  const Procurement := Session("2", "Navigating Federal Procurement",
    "A deep dive into the 2025 procurement landscape and strategies for success.", 0, 0, "Hall B", Workshop,
    [Speaker("s2", "John Doe", "Procurement Officer", "")], Some(true))
  const CoffeeBreak := Session("3", "Networking & Coffee Break",
    "Meet with small business specialists and network with peers.", 0, 0, "Lobby", Networking, [], None)
  const Cybersecurity := Session("4", "Cybersecurity Requirements 101",
    "Understanding CMMC 2.0 and what it means for your contracts.", 0, 0, "Room 204", Workshop,
    [Speaker("s3", "Alicia Keys", "IT Security Lead", "")], None)
  const Closing := Session("5", "Closing Remarks", "Wrap up and next steps.", 0, 0, "Main Auditorium", MainStage, [], None)

  /** A mock session running from `from` to `until` minutes after `now`. */
  function Scheduled(s: Session, now: int, from: int, until: int): Session
  {
    s.(startTime := RelativeTime(now, from), endTime := RelativeTime(now, until))
  }

  /** `generateMockAgenda()`, built at time `now`. */
  function MockAgenda(now: int): seq<Session>
  {
    [ Scheduled(Keynote, now, -45, -15),
      Scheduled(Procurement, now, -10, 35),
      Scheduled(CoffeeBreak, now, 40, 60),
      Scheduled(Cybersecurity, now, 65, 110),
      Scheduled(Closing, now, 120, 150) ]
  }

  /** `mockPoll`. */
  const MockPoll := Poll("poll1", "What is your biggest barrier to entry?",
    [ PollOption("opt1", "Complex Requirements", 12),
      PollOption("opt2", "Finding Opportunities", 8),
      PollOption("opt3", "Past Performance", 24),
      PollOption("opt4", "Security Clearance", 5) ],
    true, 49)

  // ------------------------------------------------------------ sessions in time

  /** `isCurrent`: the session has started and not yet ended. */
  predicate InProgress(s: Session, now: int)
  {
    now >= s.startTime && now <= s.endTime
  }

  /** `isPast`: the session has ended. */
  predicate IsOver(s: Session, now: int)
  {
    now > s.endTime
  }

  function InProgressAt(now: int): Session -> bool
  {
    s => InProgress(s, now)
  }

  /** `currentSession`: the first session in progress, if any. */
  function CurrentSessionIn(sessions: seq<Session>, now: int): (r: Option<Session>)
    ensures r.Some? ==> r.value in sessions && InProgress(r.value, now) && !IsOver(r.value, now)
    ensures r.None? <==> forall i :: 0 <= i < |sessions| ==> !InProgress(sessions[i], now)
  {
    match Seqs.FindIndex(sessions, InProgressAt(now))
    case Some(i) => Some(sessions[i])
    case None => None
  }

  /** The current session is the first one in progress: no earlier session is. */
  lemma CurrentSessionIsFirst(sessions: seq<Session>, now: int) returns (i: nat)
    requires CurrentSessionIn(sessions, now).Some?
    ensures i < |sessions| && sessions[i] == CurrentSessionIn(sessions, now).value
    ensures forall j :: 0 <= j < i ==> !InProgress(sessions[j], now)
  {
    i := Seqs.FindIndex(sessions, InProgressAt(now)).value;
  }

  /** A session is never both in progress and over. */
  lemma NeverCurrentAndPast(s: Session, now: int)
    ensures !(InProgress(s, now) && IsOver(s, now))
  {
  }

  /** At mount time the keynote is over and the procurement workshop is the current session. */
  lemma MockAgendaAtMount(now: int)
    ensures IsOver(MockAgenda(now)[0], now)
    ensures CurrentSessionIn(MockAgenda(now), now) == Some(MockAgenda(now)[1])
  {
    var a := MockAgenda(now);
    assert !InProgress(a[0], now) && InProgress(a[1], now);
  }

  // ------------------------------------------------------------ push delay

  /** A session moved later by `DelayMs`. */
  function Shifted(s: Session): Session
  {
    s.(startTime := s.startTime + DelayMs, endTime := s.endTime + DelayMs)
  }

  /** The `map` of `pushDelay`. */
  function Delayed(sessions: seq<Session>): seq<Session>
  {
    seq(|sessions|, i requires 0 <= i < |sessions| => Shifted(sessions[i]))
  }

  /**
   * The delay moves every session 15 minutes later and changes nothing else:
   * same sessions in the same order, same durations, same relative order of
   * start times.
   */
  lemma DelayedMeaning(sessions: seq<Session>)
    ensures var d := Delayed(sessions);
      |d| == |sessions|
      && (forall i :: 0 <= i < |d| ==>
            d[i].startTime == sessions[i].startTime + 15 * 60000
            && d[i].endTime == sessions[i].endTime + 15 * 60000
            && d[i].endTime - d[i].startTime == sessions[i].endTime - sessions[i].startTime
            && d[i].(startTime := 0, endTime := 0) == sessions[i].(startTime := 0, endTime := 0))
      && (forall i, j :: 0 <= i < |d| && 0 <= j < |d| ==>
            (d[i].startTime <= d[j].startTime <==> sessions[i].startTime <= sessions[j].startTime))
  {
  }

  /**
   * Whatever was current at `now` is, delayed, what is current 15 minutes
   * later; if nothing was current then, nothing is current then.
   */
  lemma DelayShiftsCurrent(sessions: seq<Session>, now: int)
    ensures CurrentSessionIn(Delayed(sessions), now + DelayMs)
         == match CurrentSessionIn(sessions, now)
            case Some(s) => Some(Shifted(s))
            case None => None
  {
    var d := Delayed(sessions);
    assert forall i :: 0 <= i < |d| ==> (InProgressAt(now + DelayMs)(d[i]) <==> InProgressAt(now)(sessions[i]));
    SameFirstIndex(sessions, InProgressAt(now), d, InProgressAt(now + DelayMs));
  }

  /** Two lists whose elements pass their tests at the same positions have the same first passing index. */
  lemma SameFirstIndex<T, U>(a: seq<T>, p: T -> bool, b: seq<U>, q: U -> bool)
    requires |a| == |b|
    requires forall i :: 0 <= i < |a| ==> (p(a[i]) <==> q(b[i]))
    ensures Seqs.FindIndex(a, p) == Seqs.FindIndex(b, q)
  {
  }

  // ------------------------------------------------------------ the poll

  function SumVotes(options: seq<PollOption>): int
  {
    if options == [] then 0 else options[0].votes + SumVotes(options[1..])
  }

  function HasId(optionId: string): PollOption -> bool
  {
    (o: PollOption) => o.id == optionId
  }

  /** The `options.map` of `handleVote`: one more vote on every option with that id. */
  function VotedOptions(options: seq<PollOption>, optionId: string): (r: seq<PollOption>)
    ensures |r| == |options|
    ensures forall i :: 0 <= i < |r| ==>
              r[i].id == options[i].id && r[i].text == options[i].text
              && r[i].votes == options[i].votes + (if options[i].id == optionId then 1 else 0)
  {
    seq(|options|, i requires 0 <= i < |options| =>
      if options[i].id == optionId then options[i].(votes := options[i].votes + 1) else options[i])
  }

  /** The poll after one vote for `optionId`. */
  function VotedPoll(poll: Poll, optionId: string): Poll
  {
    poll.(totalVotes := poll.totalVotes + 1, options := VotedOptions(poll.options, optionId))
  }

  /** A vote adds one to the option sum for every option carrying the voted id. */
  lemma {:induction false} VoteAddsToSum(options: seq<PollOption>, optionId: string)
    ensures SumVotes(VotedOptions(options, optionId)) == SumVotes(options) + Seqs.Count(options, HasId(optionId))
  {
    if options != [] {
      var r := VotedOptions(options, optionId);
      VoteAddsToSum(options[1..], optionId);
      assert r[1..] == VotedOptions(options[1..], optionId);
    }
  }

  /** A poll whose total is the sum of its option votes stays so after a vote for an id that exactly one option has. */
  lemma VoteKeepsTotal(poll: Poll, optionId: string)
    requires poll.totalVotes == SumVotes(poll.options)
    requires Seqs.Count(poll.options, HasId(optionId)) == 1
    ensures VotedPoll(poll, optionId).totalVotes == SumVotes(VotedPoll(poll, optionId).options)
  {
    VoteAddsToSum(poll.options, optionId);
  }

  /** The mock poll's total, 49, is the sum 12 + 8 + 24 + 5 of its options. */
  lemma MockPollBalanced()
    ensures MockPoll.totalVotes == SumVotes(MockPoll.options) == 49
  {
    var o := MockPoll.options;
    assert SumVotes(o[3..]) == 5;
    assert SumVotes(o[2..]) == 24 + SumVotes(o[3..]);
  }

  // ------------------------------------------------------------ schedule

  function BookedIn(bs: seq<Bookmarks.Bookmark>): Session -> bool
  {
    (s: Session) => Bookmarks.IsBookmarkedIn(bs, s.id, Bookmarks.Session)
  }

  /** `mySchedule`: the sessions bookmarked as sessions, in agenda order. */
  function MyScheduleIn(sessions: seq<Session>, bs: seq<Bookmarks.Bookmark>): seq<Session>
  {
    Seqs.Filter(sessions, BookedIn(bs))
  }

  /** A session is on the personal schedule iff its id is bookmarked as a session; the agenda order is kept. */
  lemma MyScheduleMeaning(sessions: seq<Session>, bs: seq<Bookmarks.Bookmark>)
    ensures forall i :: 0 <= i < |sessions| ==>
              (sessions[i] in MyScheduleIn(sessions, bs)
               <==> sessions[i].id != "" && Bookmarks.Has(bs, sessions[i].id, Bookmarks.Session))
    ensures Seqs.IsSubseq(MyScheduleIn(sessions, bs), sessions)
  {
    Seqs.FilterIsSubseq(sessions, BookedIn(bs));
  }

  /** Toggling a session id moves every session with that id onto the schedule or off it. */
  lemma ToggleFlipsSchedule(sessions: seq<Session>, bs: seq<Bookmarks.Bookmark>, id: string)
    requires id != ""
    ensures var after := MyScheduleIn(sessions, Bookmarks.Toggled(bs, id, Bookmarks.Session));
      forall i :: 0 <= i < |sessions| && sessions[i].id == id ==>
        (sessions[i] in after <==> sessions[i] !in MyScheduleIn(sessions, bs))
  {
    Bookmarks.AddedProperties(bs, id, Bookmarks.Session);
    Bookmarks.RemovedProperties(bs, id, Bookmarks.Session);
  }

  // ------------------------------------------------------------ the screen

  class EventGuideScreen {
    var sessions: seq<Session>
    var poll: Poll
    var userVoted: Option<string>
    var announcement: Option<string>
    var activeTab: Tab

    /** The initial state: no sessions until mount, the mock poll, no vote, no announcement. */
    constructor ()
      ensures sessions == [] && poll == MockPoll && userVoted == None
      ensures announcement == None && activeTab == Agenda
    {
      sessions := [];
      poll := MockPoll;
      userVoted := None;
      announcement := None;
      activeTab := Agenda;
    }

    /** The mount effect: the mock agenda, built at `now`. */
    method Mount(now: int)
      modifies this
      ensures sessions == MockAgenda(now)
      ensures poll == old(poll) && userVoted == old(userVoted)
      ensures announcement == old(announcement) && activeTab == old(activeTab)
    {
      sessions := MockAgenda(now);
    }

    /** `if (userVoted)`: a recorded, non-empty vote locks the poll. */
    predicate HasVoted()
      reads this
    {
      userVoted.Some? && userVoted.value != ""
    }

    /** `handleVote`: nothing once voted; otherwise record the vote and count it. */
    method HandleVote(optionId: string)
      modifies this
      ensures old(HasVoted()) ==> userVoted == old(userVoted) && poll == old(poll)
      ensures !old(HasVoted()) ==> userVoted == Some(optionId) && poll == VotedPoll(old(poll), optionId)
      ensures sessions == old(sessions) && announcement == old(announcement) && activeTab == old(activeTab)
    {
      if userVoted.Some? && userVoted.value != "" {
        return;
      }
      userVoted := Some(optionId);
      poll := VotedPoll(poll, optionId);
    }

    /** `pushDelay`: every session 15 minutes later, and the delay notice. */
    method PushDelay()
      modifies this
      ensures sessions == Delayed(old(sessions))
      ensures announcement == Some(DelayNotice)
      ensures poll == old(poll) && userVoted == old(userVoted) && activeTab == old(activeTab)
    {
      var next: seq<Session> := [];
      for k := 0 to |sessions|
        invariant next == Delayed(sessions[..k])
      {
        next := next + [Shifted(sessions[k])];
      }
      assert sessions[..|sessions|] == sessions;
      sessions := next;
      announcement := Some(DelayNotice);
    }

    /** `pushAnnouncement`: the lunch reminder. */
    method PushAnnouncement()
      modifies this
      ensures announcement == Some(LunchNotice)
      ensures sessions == old(sessions) && poll == old(poll) && userVoted == old(userVoted) && activeTab == old(activeTab)
    {
      announcement := Some(LunchNotice);
    }

    /** `toggleBookmark`: flips the session bookmark; the empty id is not guarded here. */
    method ToggleBookmark(store: Bookmarks.BookmarkStore, id: string)
      modifies store
      ensures store.bookmarks == Bookmarks.Toggled(old(store.bookmarks), id, Bookmarks.Session)
      ensures id != "" ==> store.IsBookmarked(id, Bookmarks.Session) == !old(store.IsBookmarked(id, Bookmarks.Session))
    {
      store.Toggle(id, Bookmarks.Session);
    }

    /** `currentSession` at time `now`. */
    function CurrentSession(now: int): Option<Session>
      reads this
    {
      CurrentSessionIn(sessions, now)
    }

    /** `displaySessions`: the personal schedule on its tab, otherwise the whole agenda. */
    function DisplaySessions(bs: seq<Bookmarks.Bookmark>): (r: seq<Session>)
      reads this
      ensures Seqs.IsSubseq(r, sessions)
      ensures activeTab != MySchedule ==> r == sessions
      ensures activeTab == MySchedule ==> r == MyScheduleIn(sessions, bs)
      ensures activeTab == MySchedule ==> forall i :: 0 <= i < |sessions| ==>
                (sessions[i] in r <==> sessions[i].id != "" && Bookmarks.Has(bs, sessions[i].id, Bookmarks.Session))
    {
      MyScheduleMeaning(sessions, bs);
      Seqs.SubseqReflexive(sessions);
      if activeTab == MySchedule then MyScheduleIn(sessions, bs) else sessions
    }
  }
}
