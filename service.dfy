/**
 * The client-side search-results store of the Tribler web UI's data-access
 * service: the list of search results, the latest search query, and the
 * dispatch of server-push events into that list.
 */
module Service {
  import opened Wrappers
  import opened SearchResults
  import opened RequestBodies

  /** Event discriminators the dispatcher recognises. */
  const SearchResultChannel: string := "search_result_channel"
  const SearchResultTorrent: string := "search_result_torrent"
  const ChannelDiscovered: string := "channel_discovered"
  const TorrentDiscovered: string := "torrent_discovered"

  lemma KindsDistinct()
    ensures SearchResultChannel != SearchResultTorrent
  {
    assert SearchResultChannel[14] != SearchResultTorrent[14];
  }

  /** The `type` tags stamped on records. */
  const ChannelTag: string := "channel"
  const TorrentTag: string := "torrent"

  /** A push event, already parsed: its `type` discriminator and its `event.result` record. */
  datatype Event = Event(kind: string, result: Entry)

  /** A record the dispatcher may have put in the list: a torrent, or a channel that has torrents. */
  predicate WellTagged(e: Entry)
  {
    e.tag == Some(TorrentTag) || (e.tag == Some(ChannelTag) && e.torrents > 0)
  }

  class TriblerService {
    /** The current search results, in display order. */
    var searchResults: seq<Entry>
    /**
     * The value a new subscriber to the size-1 replay of search queries
     * receives: the most recent query, or nothing before the first search.
     */
    var lastQuery: Option<string>

    /** Every record in the list came through the dispatcher. */
    ghost predicate Valid()
      reads this
    {
      forall e :: e in searchResults ==> WellTagged(e)
    }

    constructor ()
      ensures Valid()
      ensures searchResults == [] && lastQuery == None
    {
      searchResults := [];
      lastQuery := None;
    }

    /** Stamps the tag `t` on every record of `objects`, in place. */
    method AddType(objects: array<Entry>, t: string)
      modifies objects
      ensures objects[..] == Tagged(old(objects[..]), t)
    {
      for i := 0 to objects.Length
        invariant forall k :: 0 <= k < i ==> objects[k] == Tag(old(objects[k]), t)
        invariant forall k :: i <= k < objects.Length ==> objects[k] == old(objects[k])
      {
        objects[i] := Tag(objects[i], t);
      }
      ghost var was := old(objects[..]);
      TaggedLength(was, t);
      forall k | 0 <= k < objects.Length
        ensures objects[..][k] == Tagged(was, t)[k]
      {
        TaggedAt(was, t, k);
      }
    }

    /** The body of the start-download request, built parameter by parameter. */
    method StartDownloadBody(destination: string, uri: string, hops: int, selectedFiles: seq<string>)
      returns (body: string)
      ensures body == DownloadBody(destination, uri, hops, selectedFiles)
    {
      body := "anon_hops=" + IntToDecimal(hops) + "&safe_seeding=1&destination=" + destination + "&uri=" + uri;
      for i := 0 to |selectedFiles|
        invariant body == DownloadBody(destination, uri, hops, selectedFiles[..i])
      {
        DownloadBodyAppend(destination, uri, hops, selectedFiles[..i], selectedFiles[i]);
        assert selectedFiles[..i + 1] == selectedFiles[..i] + [selectedFiles[i]];
        body := body + "&selected_files[]=" + selectedFiles[i];
      }
      assert selectedFiles[..|selectedFiles|] == selectedFiles;
    }

    /**
     * Starts a search for `term`: publishes the query and empties the result
     * list at once, before any result of the new search can arrive.
     */
    method Search(term: string)
      requires Valid()
      modifies this
      ensures Valid()
      ensures searchResults == [] && lastQuery == Some(term)
    {
      lastQuery := Some(term);
      // the in-place `length = 0`
      searchResults := [];
    }

    /**
     * Dispatches one push event. A channel result is appended, tagged, when
     * it has torrents; a torrent result is appended, tagged, and the whole
     * list is re-sorted by descending relevance; every other event leaves
     * the list as it is.
     */
    method ProcessEvent(ev: Event)
      requires Valid()
      modifies this
      ensures Valid()
      ensures lastQuery == old(lastQuery)
      ensures ev.kind == SearchResultChannel ==>
        searchResults == old(searchResults) + (if ev.result.torrents > 0 then [Tag(ev.result, ChannelTag)] else [])
      ensures ev.kind == SearchResultTorrent ==>
        && |searchResults| == |old(searchResults)| + 1
        && multiset(searchResults) == multiset(old(searchResults)) + multiset{Tag(ev.result, TorrentTag)}
        && SortedByRelevance(searchResults)
      ensures ev.kind != SearchResultChannel && ev.kind != SearchResultTorrent ==>
        searchResults == old(searchResults)
    {
      if ev.kind == SearchResultChannel {
        var channel := ev.result;
        if channel.torrents > 0 {
          channel := Tag(channel, ChannelTag);
          searchResults := searchResults + [channel];
        }
      } else if ev.kind == SearchResultTorrent {
        var torrent := Tag(ev.result, TorrentTag);
        searchResults := searchResults + [torrent];
        ghost var grown := searchResults;
        searchResults := SortByRelevance(searchResults);
        forall e | e in searchResults
          ensures WellTagged(e)
        {
          assert e in multiset(grown);
        }
      } else if ev.kind == ChannelDiscovered || ev.kind == TorrentDiscovered {
        // only logged
      }
    }
  }

  /**
   * A client of the store: torrents scored 0.9, 0.5 and 0.95 (scaled here to
   * 90, 50 and 95) end up ordered 0.95, 0.9, 0.5.
   */
  method TorrentOrderScenario()
  {
    var service := new TriblerService();
    service.Search("foo");
    var a := Entry("t", 90, 0, None);
    var b := Entry("t", 50, 0, None);
    var c := Entry("t", 95, 0, None);
    var ta, tb, tc := Tag(a, TorrentTag), Tag(b, TorrentTag), Tag(c, TorrentTag);
    KindsDistinct();
    service.ProcessEvent(Event(SearchResultTorrent, a));
    assert multiset(service.searchResults) == multiset{ta};
    service.ProcessEvent(Event(SearchResultTorrent, b));
    assert multiset(service.searchResults) == multiset{ta, tb};
    service.ProcessEvent(Event(SearchResultTorrent, c));
    assert multiset(service.searchResults) == multiset{ta, tb, tc};
    SortedOfThree(service.searchResults, tc, ta, tb);
    assert service.searchResults == [tc, ta, tb];
  }

  /** Three records with distinct scores have exactly one ordering by relevance. */
  lemma SortedOfThree(r: seq<Entry>, x: Entry, y: Entry, z: Entry)
    requires SortedByRelevance(r) && multiset(r) == multiset{x, y, z}
    requires x.relevanceScore > y.relevanceScore > z.relevanceScore
    ensures r == [x, y, z]
  {
    assert multiset([x, y, z]) == multiset{x, y, z};
    SortedPermutationUnique(r, [x, y, z]);
  }

  /**
   * A client of the store: a better-scored channel is appended after a
   * torrent without a re-sort, a channel without torrents and a discovery
   * event change nothing, and a new search empties the list and replaces the
   * query.
   */
  method ChannelScenario()
  {
    var service := new TriblerService();
    service.Search("foo");
    assert service.lastQuery == Some("foo");
    var a := Entry("t", 90, 0, None);
    KindsDistinct();
    service.ProcessEvent(Event(SearchResultTorrent, a));
    var ta := Tag(a, TorrentTag);
    assert multiset(service.searchResults) == multiset{ta};
    assert |service.searchResults| == 1 && service.searchResults[0] in multiset{ta};
    assert service.searchResults == [ta];

    var ch := Entry("ch", 99, 3, None);
    service.ProcessEvent(Event(SearchResultChannel, ch));
    var appended := service.searchResults;
    assert appended == [ta, Tag(ch, ChannelTag)];
    assert appended[0].relevanceScore < appended[1].relevanceScore;
    assert !SortedByRelevance(appended);

    service.ProcessEvent(Event(SearchResultChannel, Entry("empty", 80, 0, None)));
    assert service.searchResults == appended;
    service.ProcessEvent(Event(TorrentDiscovered, a));
    assert service.searchResults == appended;

    service.Search("bar");
    assert service.searchResults == [] && service.lastQuery == Some("bar");
  }
}
