/**
 * `hooks/useData.ts`: the lookups and per-record processing that turn the
 * nine fetched JSON collections and the forecast sheet into the data set
 * every screen reads, and the loading/error state around that fetch.
 */
module DataLoad {
  import opened Options
  import opened Types
  import Strings
  import Seqs
  import StableSort
  import Loose

  const ImageBase: string := "https://d2dirmrq3rvsv0.cloudfront.net/images/"
  const UnknownCenter: string := "Unknown Center"
  const MissingStoryBody: string := "<p>Content for this story could not be found.</p>"
  const UnknownError: string := "An unknown error occurred."

  // ------------------------------------------------------------ lookups

  /** `new Map(entries)`: the entries inserted in order, so a repeated key keeps its last value. */
  function MapFromEntries<V>(es: seq<(string, V)>): map<string, V>
  {
    if es == [] then map[] else MapFromEntries(es[..|es| - 1])[es[|es| - 1].0 := es[|es| - 1].1]
  }

  /** Every key of the entries is present, and maps to the value of its last entry. */
  lemma MapFromEntriesMeaning<V>(es: seq<(string, V)>)
    ensures forall k :: k in MapFromEntries(es) <==> exists i :: 0 <= i < |es| && es[i].0 == k
    ensures forall i :: 0 <= i < |es| && (forall j :: i < j < |es| ==> es[j].0 != es[i].0)
                        ==> es[i].0 in MapFromEntries(es) && MapFromEntries(es)[es[i].0] == es[i].1
  {
    MapFromEntriesKeys(es);
    MapFromEntriesValues(es);
  }

  lemma {:induction false} MapFromEntriesKeys<V>(es: seq<(string, V)>)
    ensures forall k :: k in MapFromEntries(es) <==> exists i :: 0 <= i < |es| && es[i].0 == k
  {
    if es != [] {
      var init := es[..|es| - 1];
      var last := es[|es| - 1];
      MapFromEntriesKeys(init);
      forall k
        ensures k in MapFromEntries(es) <==> exists i :: 0 <= i < |es| && es[i].0 == k
      {
        if k in MapFromEntries(init) {
          var i :| 0 <= i < |init| && init[i].0 == k;
          assert es[i] == init[i];
        }
        if exists i :: 0 <= i < |es| && es[i].0 == k {
          var i :| 0 <= i < |es| && es[i].0 == k;
          if i < |init| {
            assert init[i] == es[i];
          }
        }
      }
    }
  }

  lemma {:induction false} MapFromEntriesValues<V>(es: seq<(string, V)>)
    ensures forall i :: 0 <= i < |es| && (forall j :: i < j < |es| ==> es[j].0 != es[i].0)
                        ==> es[i].0 in MapFromEntries(es) && MapFromEntries(es)[es[i].0] == es[i].1
  {
    if es != [] {
      var init := es[..|es| - 1];
      MapFromEntriesValues(init);
      forall i | 0 <= i < |init| && (forall j :: i < j < |es| ==> es[j].0 != es[i].0)
        ensures es[i].0 in MapFromEntries(es) && MapFromEntries(es)[es[i].0] == es[i].1
      {
        assert init[i] == es[i];
        assert forall j :: i < j < |init| ==> init[j] == es[j];
      }
    }
  }

  /** `centersMap`: `center_id` to `center_name`. */
  function CentersMap(cs: seq<Center>): map<string, string>
  {
    MapFromEntries(seq(|cs|, i requires 0 <= i < |cs| => (cs[i].center_id, cs[i].center_name)))
  }

  /** `nodeContentMap`: `String(nid)` to the node's title and body. */
  function NodeContentMap(ns: seq<NodeContent>): map<string, NodeBody>
  {
    MapFromEntries(seq(|ns|, i requires 0 <= i < |ns| =>
      (Strings.IntToString(ns[i].nid), NodeBody(ns[i].title, ns[i].body))))
  }

  /** A centre id resolves to the name of its last entry: a later entry with the same id wins. */
  lemma CentersMapFinds(cs: seq<Center>, i: nat)
    requires i < |cs|
    requires forall j :: i < j < |cs| ==> cs[j].center_id != cs[i].center_id
    ensures cs[i].center_id in CentersMap(cs) && CentersMap(cs)[cs[i].center_id] == cs[i].center_name
  {
    var es := seq(|cs|, k requires 0 <= k < |cs| => (cs[k].center_id, cs[k].center_name));
    assert es[i] == (cs[i].center_id, cs[i].center_name);
    assert forall j :: i < j < |es| ==> es[j].0 != es[i].0;
    MapFromEntriesMeaning(es);
  }

  /** An id missing from `centers.json` is not in the lookup. */
  lemma CentersMapMisses(cs: seq<Center>, id: string)
    requires forall j :: 0 <= j < |cs| ==> cs[j].center_id != id
    ensures id !in CentersMap(cs)
  {
    var es := seq(|cs|, k requires 0 <= k < |cs| => (cs[k].center_id, cs[k].center_name));
    assert forall j :: 0 <= j < |es| ==> es[j].0 == cs[j].center_id;
    MapFromEntriesMeaning(es);
  }

  // ------------------------------------------------------------ images

  /** `f` is the part of `path` after its last `/` (all of it when there is none). */
  predicate FileNameOf(f: string, path: string)
  {
    '/' !in f && |f| <= |path| && path[|path| - |f|..] == f
    && (|f| == |path| || path[|path| - |f| - 1] == '/')
  }

  /** Only one text is the file name of a path. */
  lemma FileNameUnique(f: string, g: string, path: string)
    requires FileNameOf(f, path) && FileNameOf(g, path)
    ensures f == g
  {
  }

  lemma LastSegmentIsFileName(s: string)
    ensures FileNameOf(Strings.LastSegment(s), s)
  {
    Strings.LastSegmentIsSuffix(s);
    Strings.LastSegmentBoundary(s);
  }

  /**
   * The photo and tile-image rewrite: the file name after the last `/`
   * appended to the image host, or `''` when there is no file name.
   */
  function ImageUrl(path: string): (r: string)
    ensures r == "" <==> (path == "" || path[|path| - 1] == '/')
    ensures r != "" ==> |r| > |ImageBase| && r[..|ImageBase|] == ImageBase
                        && FileNameOf(r[|ImageBase|..], path)
  {
    Strings.LastSegmentEmpty(path);
    LastSegmentIsFileName(path);
    var name := if path == "" then "" else Strings.LastSegment(path);
    if name == "" then "" else
      assert (ImageBase + name)[|ImageBase|..] == name;
      ImageBase + name
  }

  // ------------------------------------------------------------ contacts

  /** `centersMap.get(String(center_id)) || 'Unknown Center'`. */
  function CenterName(centers: map<string, string>, id: string): (r: string)
    ensures r != ""
    ensures r == UnknownCenter <==> id !in centers || centers[id] in {"", UnknownCenter}
    ensures r != UnknownCenter ==> id in centers && r == centers[id]
  {
    if id in centers && centers[id] != "" then centers[id] else UnknownCenter
  }

  function ProcessContact(c: Contact, centers: map<string, string>): (p: ProcessedContact)
    ensures p.base == c.(photo := ImageUrl(c.photo))
    ensures p.center == CenterName(centers, c.center_id) && p.associatedContracts == []
  {
    ProcessedContact(c.(photo := ImageUrl(c.photo)), CenterName(centers, c.center_id), [])
  }

  function ProcessContacts(cs: seq<Contact>, centers: map<string, string>): (ps: seq<ProcessedContact>)
    ensures |ps| == |cs|
    ensures forall i :: 0 <= i < |cs| ==> ps[i] == ProcessContact(cs[i], centers)
  {
    seq(|cs|, i requires 0 <= i < |cs| => ProcessContact(cs[i], centers))
  }

  // ------------------------------------------------------------ dashboard

  /** `screenMap[link] || null`. */
  function ScreenFor(link: string): (r: Option<Screen>)
    ensures r.Some? <==> link in {"/contracts", "/sbs", "/events", "/top-stories"}
    ensures r.Some? ==> r.value in {Screen.Contracts, Screen.Contacts, Screen.Events, Screen.TopStories}
  {
    if link == "/contracts" then Some(Screen.Contracts)
    else if link == "/sbs" then Some(Screen.Contacts)
    else if link == "/events" then Some(Screen.Events)
    else if link == "/top-stories" then Some(Screen.TopStories)
    else None
  }

  /** `item.node_id && item.node_id.trim() !== ''`. */
  predicate HasNode(item: DashboardItem)
  {
    item.node_id.Some? && item.node_id.value != "" && Strings.Trim(item.node_id.value) != ""
  }

  function ProcessTile(item: DashboardItem, nodes: map<string, NodeBody>): ProcessedDashboardItem
  {
    var imageUrl := ImageUrl(item.image_url);
    if HasNode(item) then
      var key := Strings.Trim(item.node_id.value);
      ProcessedDashboardItem(item.title, imageUrl, None, if key in nodes then Some(nodes[key]) else None)
    else
      ProcessedDashboardItem(item.title, imageUrl, ScreenFor(item.link), None)
  }

  function Weight(item: DashboardItem): int
  {
    item.weight
  }

  /** `dashboard.sort(by weight)`: the order in which the tiles are published. */
  function SortedDashboard(items: seq<DashboardItem>): seq<DashboardItem>
  {
    StableSort.Sort(items, Weight)
  }

  function ProcessDashboard(items: seq<DashboardItem>, nodes: map<string, NodeBody>): seq<ProcessedDashboardItem>
  {
    var sorted := SortedDashboard(items);
    seq(|sorted|, i requires 0 <= i < |sorted| => ProcessTile(sorted[i], nodes))
  }

  /**
   * A tile opens either node content or a screen, never both; it opens
   * content only when it names a node that exists, under the trimmed id.
   */
  lemma TileTarget(item: DashboardItem, nodes: map<string, NodeBody>)
    ensures var t := ProcessTile(item, nodes);
      t.title == item.title && t.imageUrl == ImageUrl(item.image_url)
      && (t.screen.None? || t.content.None?)
      && (t.content.Some? <==> HasNode(item) && Strings.Trim(item.node_id.value) in nodes)
      && (t.content.Some? ==> t.content.value == nodes[Strings.Trim(item.node_id.value)])
      && (t.screen.Some? <==> !HasNode(item) && ScreenFor(item.link).Some?)
  {
  }

  /**
   * The tiles come out one per input item, ordered by weight, with items of
   * equal weight in their input order.
   */
  lemma DashboardOrder(items: seq<DashboardItem>, nodes: map<string, NodeBody>, w: int)
    ensures var sorted := SortedDashboard(items);
      |ProcessDashboard(items, nodes)| == |items|
      && multiset(sorted) == multiset(items)
      && (forall i, j :: 0 <= i < j < |sorted| ==> sorted[i].weight <= sorted[j].weight)
      && Seqs.Filter(sorted, StableSort.HasKey(Weight, w)) == Seqs.Filter(items, StableSort.HasKey(Weight, w))
      && forall i :: 0 <= i < |sorted| ==> ProcessDashboard(items, nodes)[i] == ProcessTile(sorted[i], nodes)
  {
    StableSort.SortSorts(items, Weight);
    StableSort.SortStable(items, Weight, w);
  }

  // ------------------------------------------------------------ top stories

  /** `nodeContentMap.get(String(nid))?.body || '<p>…could not be found.</p>'`. */
  function StoryBody(nodes: map<string, NodeBody>, nid: int): (body: string)
    ensures body != ""
    ensures var key := Strings.IntToString(nid);
      if key in nodes && nodes[key].body != "" then body == nodes[key].body else body == MissingStoryBody
  {
    var key := Strings.IntToString(nid);
    if key in nodes && nodes[key].body != "" then nodes[key].body else MissingStoryBody
  }

  function ProcessTopStories(ss: seq<TopStory>, nodes: map<string, NodeBody>): (ps: seq<ProcessedTopStory>)
    ensures |ps| == |ss|
    ensures forall i :: 0 <= i < |ss| ==> ps[i] == ProcessedTopStory(ss[i], StoryBody(nodes, ss[i].nid))
  {
    seq(|ss|, i requires 0 <= i < |ss| => ProcessedTopStory(ss[i], StoryBody(nodes, ss[i].nid)))
  }

  // ------------------------------------------------------------ assembly

  /** The data set `setData` publishes once every fetch has succeeded. */
  function Process(all: AllData, forecasts: seq<Loose.Row>): ProcessedData
  {
    var centers := CentersMap(all.centers);
    var nodes := NodeContentMap(all.nodeContent);
    ProcessedData(
      all.(dashboard := SortedDashboard(all.dashboard)),
      ProcessContacts(all.contacts, centers),
      all.contracts,
      ProcessTopStories(all.topStories, nodes),
      ProcessDashboard(all.dashboard, nodes),
      forecasts)
  }

  /** `Failed to fetch ${key}: ${res.statusText}`. */
  function FetchFailure(key: string, statusText: string): (msg: string)
    ensures |msg| == 16 + |key| + 2 + |statusText|
    ensures msg[..16] == "Failed to fetch " && msg[16..16 + |key|] == key
  {
    "Failed to fetch " + key + ": " + statusText
  }

  /** `e.message || 'An unknown error occurred.'`. */
  function ErrorText(message: string): (r: string)
    ensures r != ""
    ensures message != "" ==> r == message
    ensures message == "" ==> r == UnknownError
  {
    if message != "" then message else UnknownError
  }

  /** How the nine JSON fetches ended: all parsed, or one rejected with a message. */
  datatype JsonOutcome = Loaded(all: AllData) | Failed(message: string)

  /** The `data`, `loading` and `error` state of the hook. */
  class DataState {
    var data: Option<ProcessedData>
    var loading: bool
    var error: Option<string>

    constructor ()
      ensures data == None && loading && error == None
    {
      data := None;
      loading := true;
      error := None;
    }

    /**
     * `fetchData`. `forecasts` is the parsed first sheet of the forecast
     * workbook, `None` when its fetch or parse failed.
     */
    method FetchData(json: JsonOutcome, forecasts: Option<seq<Loose.Row>>)
      modifies this
      ensures !loading
      ensures json.Loaded? ==>
                error == None && data == Some(Process(json.all, if forecasts.Some? then forecasts.value else []))
      ensures json.Failed? ==> data == old(data) && error == Some(ErrorText(json.message))
    {
      loading := true;
      error := None;
      match json {
        case Loaded(all) =>
          var sheet := if forecasts.Some? then forecasts.value else [];
          data := Some(Process(all, sheet));
        case Failed(message) =>
          error := Some(ErrorText(message));
      }
      loading := false;
    }
  }

  /** A failed collection fetch surfaces its own message, naming the collection. */
  lemma FetchFailureShown(key: string, statusText: string)
    ensures ErrorText(FetchFailure(key, statusText)) == FetchFailure(key, statusText)
    ensures Strings.Contains(ErrorText(FetchFailure(key, statusText)), key)
  {
    var msg := FetchFailure(key, statusText);
    Strings.ContainsAt(msg, key, 16);
  }
}
