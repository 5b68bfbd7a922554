/**
 `EntryViewModel`: the entry screen's state, the fetch that fills it and the
 connectivity-driven refetch.
 */
module EntryViewModel {
  import opened Results
  import opened Model
  import opened Cache
  import Repository
  import XmlEvents

  datatype EntryViewState = EntryViewState(data: seq<Entry>, isLoading: bool)

  /** Nothing shown yet, and loading. */
  const InitialState := EntryViewState([], true)

  datatype EntryEvent = DisplayNetworkCallErrorMessage | DisplayNotFoundError

  datatype Step = Step(state: EntryViewState, events: seq<EntryEvent>)

  /** The first update of `getEntries`, made before the use case is consulted. */
  function StartFetch(st: EntryViewState): (r: EntryViewState)
    ensures r.isLoading && r.data == st.data
  {
    st.(isLoading := true)
  }

  /** The error message each kind of failure shows. */
  function ErrorEvent(kind: ErrorType): (e: EntryEvent)
    ensures kind == NotFound <==> e == DisplayNotFoundError
  {
    match kind
    case NotFound => DisplayNotFoundError
    case Unknown => DisplayNetworkCallErrorMessage
  }

  /**
   `getEntries(feed)`: raise the loading flag, then apply the use case's
   result: success shows its rows; failure keeps what was shown and emits
   the message for its kind.
   */
  function GetEntries(st: EntryViewState, response: Resource<seq<Entry>>): (r: Step)
    ensures !r.state.isLoading
    ensures response.Success? ==> r.state.data == response.data && r.events == []
    ensures response.Error? ==> r.state.data == st.data
    ensures response.Error? && response.errorType == NotFound ==> r.events == [DisplayNotFoundError]
    ensures response.Error? && response.errorType == Unknown ==> r.events == [DisplayNetworkCallErrorMessage]
  {
    var s1 := StartFetch(st);
    match response
    case Success(entries) => Step(s1.(data := entries, isLoading := false), [])
    case Error(kind, _) => Step(s1.(isLoading := false), [ErrorEvent(kind)])
  }

  /** The guard in `trackNetworkStatus`: refetch only when online, idle and showing nothing. */
  predicate ShouldRefetch(st: EntryViewState, connected: bool) {
    |st.data| == 0 && !st.isLoading && connected
  }

  /** One connectivity notification; `response` is what a refetch would get. */
  function OnConnectivity(st: EntryViewState, connected: bool, response: Resource<seq<Entry>>): (r: Step)
    ensures !ShouldRefetch(st, connected) ==> r == Step(st, [])
    ensures ShouldRefetch(st, connected) ==> r == GetEntries(st, response)
  {
    if ShouldRefetch(st, connected) then GetEntries(st, response) else Step(st, [])
  }

  // ---------------------------------------------------------------------------
  // Properties

  /** A fetch emits at most one event, and one exactly when it fails. */
  lemma OneEventPerFailure(st: EntryViewState, response: Resource<seq<Entry>>)
    ensures var r := GetEntries(st, response); |r.events| <= 1 && (|r.events| == 1 <==> response.Error?)
  {
  }

  /** Once a fetch has shown rows, connectivity changes never fetch again. */
  lemma NoRefetchOnceFilled(st: EntryViewState, response: Resource<seq<Entry>>, connected: bool, next: Resource<seq<Entry>>)
    requires response.Success? && |response.data| > 0
    ensures var s := GetEntries(st, response).state; OnConnectivity(s, connected, next) == Step(s, [])
  {
  }

  /**
   A failed first fetch leaves the screen empty and idle, so the next
   notification that reports a connection fetches again.
   */
  lemma RefetchAfterFailedStart(response: Resource<seq<Entry>>, next: Resource<seq<Entry>>)
    requires response.Error?
    ensures var s := GetEntries(InitialState, response).state;
      ShouldRefetch(s, true) && OnConnectivity(s, true, next) == GetEntries(s, next)
      && !ShouldRefetch(s, false)
  {
  }

  /**
   Offline, the entry screen shows exactly the cached rows of the selected
   feed: the repository serves them and the fetch puts them on screen. This
   needs the feed's link to be a URL the HTTP client accepts; otherwise the
   call throws before connectivity is looked at, and nothing is returned.
   */
  lemma OfflineShowsCachedRows(urlAccepted: bool, st: EntryViewState, feed: Feed, outcome: Repository.Outcome<XmlEvents.Doc>, s: Store)
    ensures var c := Repository.GetEntries(urlAccepted, false, feed, outcome, s);
      && (c.Returned? <==> urlAccepted)
      && (c.Returned? ==> GetEntries(st, c.sync.result) == Step(EntryViewState(EntriesFor(s.entries, feed.key), false), []))
  {
  }
}
