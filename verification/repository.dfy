/**
 `GithubFeedRepositoryImpl`: serve the cache when offline; otherwise fetch,
 classify the HTTP outcome, replace the cached rows on success and read them
 back. Each operation returns its `Resource`, the store afterwards, and the
 DAO calls it made, in order.
 */
module Repository {
  import opened Results
  import opened Model
  import opened XmlEvents
  import opened XmlParser
  import opened EntryMapper
  import opened FeedMapper
  import opened Cache
  import AtomReference

  /**
   What the network call produced: a response with its status code and body
   (absent when the response has none), or an exception thrown by the call.
   */
  datatype Outcome<B> = Code(code: int, body: Option<B>) | Thrown

  /** The result of one repository call, the store after it and the DAO calls made. */
  datatype Sync<T> = Sync(result: Resource<seq<T>>, store: Store, calls: seq<StoreCall>)

  /** An error with no data; the store untouched and never consulted. */
  function Failed<T>(kind: ErrorType, s: Store): Sync<T> {
    Sync(Error(kind, None), s, [])
  }

  /** The classification of a non-200 outcome, shared by both operations. */
  function FailureKind<B>(outcome: Outcome<B>): ErrorType
    requires !(outcome.Code? && outcome.code == 200)
  {
    if outcome.Code? && outcome.code == 404 then NotFound else Unknown
  }

  // ---------------------------------------------------------------------------
  // getFeeds

  /** `storeFeeds`: map every catalog link, delete every feed row, insert the new ones. */
  function StoreFeeds(body: FeedResponse, s: Store): (r: Store)
    ensures r.entries == s.entries
    ensures SameFeedsUpToId(r.feeds, ToFeeds(body.links))
  {
    var s1 := InsertFeeds(DeleteAllFeeds(s), ToFeeds(body.links));
    assert s1.feeds[0..] == s1.feeds;
    s1
  }

  /** `getFeeds()`. */
  function GetFeeds(connected: bool, outcome: Outcome<FeedResponse>, s: Store): (r: Sync<Feed>)
    ensures !connected ==> r == Sync(Success(s.feeds), s, [ReadFeeds])
    ensures connected && outcome.Thrown? ==> r == Sync(Error(Unknown, None), s, [])
    ensures connected && outcome.Code? && outcome.code == 404 ==> r == Sync(Error(NotFound, None), s, [])
    ensures connected && outcome.Code? && outcome.code != 200 && outcome.code != 404 ==> r == Sync(Error(Unknown, None), s, [])
    ensures connected && outcome == Code(200, None) ==> r == Sync(Success(s.feeds), s, [ReadFeeds])
    ensures connected && outcome.Code? && outcome.code == 200 && outcome.body.Some? ==>
      var fs := ToFeeds(outcome.body.value.links);
      && r.calls == [ClearFeeds, AddFeeds(fs), ReadFeeds]
      && r.result == Success(r.store.feeds) && SameFeedsUpToId(r.store.feeds, fs)
      && r.store.entries == s.entries
    ensures r.result.Error? ==> r.result.errorData.None? && r.store == s && r.calls == []
    ensures r.result.Success? ==> r.result.data == r.store.feeds
    ensures Replay(s, r.calls) == r.store
  {
    if !connected || outcome == Code(200, None) then
      ReplayRead(s, ReadFeeds);
      Sync(Success(s.feeds), s, [ReadFeeds])
    else if outcome.Code? && outcome.code == 200 then
      var body := outcome.body.value;
      var s1 := StoreFeeds(body, s);
      ReplayThree(s, ClearFeeds, AddFeeds(ToFeeds(body.links)), ReadFeeds);
      Sync(Success(s1.feeds), s1, [ClearFeeds, AddFeeds(ToFeeds(body.links)), ReadFeeds])
    else Failed(FailureKind(outcome), s)
  }

  // ---------------------------------------------------------------------------
  // getEntries

  /**
   `list.forEach { entries.add(it.toEntry(feedKey)) }`: every parsed entry
   mapped in order, failing at the first date that throws.
   */
  function MapEntries(list: seq<EntryResponse>, feedKey: string): (r: Result<seq<Entry>, DateError>)
    ensures r.Ok? <==> forall i :: 0 <= i < |list| ==> ToEntry(list[i], feedKey).Ok?
    ensures r.Ok? ==> |r.value| == |list| && forall i :: 0 <= i < |list| ==> ToEntry(list[i], feedKey) == Ok(r.value[i])
  {
    if list == [] then Ok([])
    else
      var e :- ToEntry(list[0], feedKey);
      var rest :- MapEntries(list[1..], feedKey);
      assert forall i :: 1 <= i < |list| ==> list[i] == list[1..][i - 1];
      Ok([e] + rest)
  }

  /**
   `storeEntries`: delete the rows of `feedKey`, insert the mapped ones. The
   mapping has already succeeded, as it runs before the delete.
   */
  function StoreEntries(es: seq<Entry>, feedKey: string, s: Store): (r: Store)
    requires forall i :: 0 <= i < |es| ==> es[i].feedKey == feedKey
    ensures r.feeds == s.feeds
    ensures SameEntriesUpToId(EntriesFor(r.entries, feedKey), es)
    ensures forall k :: k != feedKey ==> EntriesFor(r.entries, k) == EntriesFor(s.entries, k)
  {
    var s1 := DeleteEntries(s, feedKey);
    var s2 := InsertEntries(s1, es);
    var added := EntriesWithIds(es, s1.lastEntryId);
    assert s2.entries == s1.entries + added;
    assert forall i :: 0 <= i < |added| ==> added[i].feedKey == feedKey;
    assert EntriesFor(s2.entries, feedKey) == added by {
      EntriesForAppend(s1.entries, added, feedKey);
      EntriesForOwned(added, feedKey);
    }
    assert forall k :: k != feedKey ==> EntriesFor(s2.entries, k) == EntriesFor(s.entries, k) by {
      forall k | k != feedKey ensures EntriesFor(s2.entries, k) == EntriesFor(s.entries, k) {
        EntriesForAppend(s1.entries, added, k);
        EntriesForAfterDelete(s.entries, feedKey, k);
        EntriesForNone(added, k);
      }
    }
    s2
  }

  /**
   The 200 branch of `getEntries` with a body, given what the parser made of
   it: map, and only then delete and insert, so a failure in parsing or
   mapping leaves the store untouched.
   */
  function RefreshEntries(key: string, parsed: Result<seq<EntryResponse>, ParseError>, s: Store): (r: Sync<Entry>)
    ensures parsed.Fail? ==> r == Sync(Error(Unknown, None), s, [])
    ensures parsed.Ok? && MapEntries(parsed.value, key).Fail? ==> r == Sync(Error(Unknown, None), s, [])
    ensures parsed.Ok? && MapEntries(parsed.value, key).Ok? ==>
      var es := MapEntries(parsed.value, key).value;
      && r.calls == [ClearEntries(key), AddEntries(es), ReadEntries(key)]
      && r.result == Success(EntriesFor(r.store.entries, key))
      && SameEntriesUpToId(r.result.data, es)
    ensures r.store.feeds == s.feeds
    ensures forall k :: k != key ==> EntriesFor(r.store.entries, k) == EntriesFor(s.entries, k)
    ensures Replay(s, r.calls) == r.store
  {
    match parsed
    case Fail(_) => Failed(Unknown, s)
    case Ok(list) =>
      match MapEntries(list, key)
      case Fail(_) => Failed(Unknown, s)
      case Ok(es) =>
        var s1 := StoreEntries(es, key, s);
        ReplayThree(s, ClearEntries(key), AddEntries(es), ReadEntries(key));
        Sync(Success(EntriesFor(s1.entries, key)), s1, [ClearEntries(key), AddEntries(es), ReadEntries(key)])
  }

  /**
   `getEntries(feed)` once its request has been built: the connectivity check,
   the call and its classification. The body is the event sequence of the
   response text.
   */
  function FetchEntries(connected: bool, feed: Feed, outcome: Outcome<Doc>, s: Store): (r: Sync<Entry>)
    ensures !connected ==> r == Sync(Success(EntriesFor(s.entries, feed.key)), s, [ReadEntries(feed.key)])
    ensures connected && outcome.Thrown? ==> r == Sync(Error(Unknown, None), s, [])
    ensures connected && outcome.Code? && outcome.code == 404 ==> r == Sync(Error(NotFound, None), s, [])
    ensures connected && outcome.Code? && outcome.code != 200 && outcome.code != 404 ==> r == Sync(Error(Unknown, None), s, [])
    ensures connected && outcome == Code(200, None) ==>
      r == Sync(Success(EntriesFor(s.entries, feed.key)), s, [ReadEntries(feed.key)])
    ensures connected && outcome.Code? && outcome.code == 200 && outcome.body.Some? ==>
      r == RefreshEntries(feed.key, Parse(outcome.body.value), s)
    ensures r.result.Error? ==> r.result.errorData.None? && r.store == s && r.calls == []
    ensures r.result.Success? ==> r.result.data == EntriesFor(r.store.entries, feed.key)
    ensures r.store.feeds == s.feeds
    ensures forall k :: k != feed.key ==> EntriesFor(r.store.entries, k) == EntriesFor(s.entries, k)
    ensures Replay(s, r.calls) == r.store
  {
    if !connected || outcome == Code(200, None) then
      ReplayRead(s, ReadEntries(feed.key));
      Sync(Success(EntriesFor(s.entries, feed.key)), s, [ReadEntries(feed.key)])
    else if outcome.Code? && outcome.code == 200 then
      RefreshEntries(feed.key, Parse(outcome.body.value), s)
    else Failed(FailureKind(outcome), s)
  }

  /**
   A call of `getEntries` that either returns or throws out of it. The request
   is built from `feed.link` before anything else and outside the `try`, so a
   link the HTTP client rejects throws to the caller whatever the
   connectivity.
   */
  datatype Call<T> = Returned(sync: Sync<T>) | InvalidUrl

  /**
   `getEntries(feed)`. Whether the HTTP client accepts `feed.link` as a URL is
   the parameter `urlAccepted`.
   */
  function GetEntries(urlAccepted: bool, connected: bool, feed: Feed, outcome: Outcome<Doc>, s: Store): (r: Call<Entry>)
    ensures r.InvalidUrl? <==> !urlAccepted
    ensures r.Returned? ==> r.sync == FetchEntries(connected, feed, outcome, s)
  {
    if urlAccepted then Returned(FetchEntries(connected, feed, outcome, s)) else InvalidUrl
  }

  // ---------------------------------------------------------------------------
  // Properties relating several calls

  /** Refreshing the feeds twice from the same response gives the same feeds, up to the generated ids. */
  lemma GetFeedsIdempotent(outcome: Outcome<FeedResponse>, s: Store)
    requires outcome.Code? && outcome.code == 200 && outcome.body.Some?
    ensures var r1 := GetFeeds(true, outcome, s);
            var r2 := GetFeeds(true, outcome, r1.store);
            r1.result.Success? && r2.result.Success? && SameFeedsUpToId(r1.result.data, r2.result.data)
            && r2.store.entries == s.entries
  {
  }

  /** Refreshing one feed's entries twice from the same response gives the same entries, up to the generated ids. */
  lemma GetEntriesIdempotent(feed: Feed, outcome: Outcome<Doc>, s: Store)
    requires outcome.Code? && outcome.code == 200 && outcome.body.Some?
    ensures var r1 := FetchEntries(true, feed, outcome, s);
            var r2 := FetchEntries(true, feed, outcome, r1.store);
            r1.result.Success? ==> r2.result.Success? && SameEntriesUpToId(r1.result.data, r2.result.data)
  {
    var parsed := Parse(outcome.body.value);
    var r1 := RefreshEntries(feed.key, parsed, s);
    if r1.result.Success? {
      assert parsed.Ok? && MapEntries(parsed.value, feed.key).Ok?;
      var r2 := RefreshEntries(feed.key, parsed, r1.store);
    }
  }

  /**
   End to end: the response text of an Atom document whose entries are all
   readable and whose dates all parse refreshes the feed's rows to one row
   per `entry` element, in document order, each stamped with the feed's key.
   */
  lemma GetEntriesOfDocument(feed: Feed, root: Node, rest: seq<Event>, s: Store)
    requires AtomReference.ReadableFeed(root)
    requires MapEntries(AtomReference.EntriesOf(root.children), feed.key).Ok?
    ensures var c := GetEntries(true, true, feed, Code(200, Some(Events(root) + rest)), s);
      c.Returned? && var r := c.sync;
      && r.result.Success?
      && |r.result.data| == AtomReference.EntryCount(root.children)
      && SameEntriesUpToId(r.result.data, MapEntries(AtomReference.EntriesOf(root.children), feed.key).value)
      && forall e :: e in r.result.data ==> e.feedKey == feed.key
  {
    AtomReference.ParseFeedDocument(root, rest);
  }
}
