/**
 `FeedViewModel`: the catalog screen's state, the actions it handles and the
 one-shot events it emits. Handling an action is a pure step from a state to
 the next state and the events emitted, in order.
 */
module FeedViewModel {
  import opened Results
  import opened Model
  import opened Text

  /** The catalog keys whose links carry placeholders. */
  const UserKey := "user"
  const RepoDiscussionsKey := "repository_discussions"
  const RepoDiscussionsCategoryKey := "repository_discussions_category"

  const UserPlaceholder := "{user}"
  const RepoPlaceholder := "{repo}"
  const CategoryPlaceholder := "{category}"

  datatype FeedViewState = FeedViewState(
    data: seq<Feed>,
    user: string,
    isUserError: bool,
    repo: string,
    isRepoError: bool,
    category: string,
    isCategoryError: bool,
    isLoading: bool)

  /** Every field at its declared default. */
  const InitialState := FeedViewState([], "", false, "", false, "", false, true)

  datatype FeedAction =
    | OnInit
    | FeedSelected(feed: Feed)
    | UserInputUpdated(text: string)
    | RepoInputUpdated(text: string)
    | CategoryInputUpdated(text: string)

  datatype FeedEvent = NavigateToEntryScreen(feed: Feed) | DisplayUnknownErrorMessage

  datatype Step = Step(state: FeedViewState, events: seq<FeedEvent>)

  /** `clearErrors`: each flag given is set, each absent one kept. */
  function ClearErrors(st: FeedViewState, user: Option<bool>, repo: Option<bool>, category: Option<bool>): (r: FeedViewState)
    ensures r.isUserError == user.GetOr(st.isUserError)
    ensures r.isRepoError == repo.GetOr(st.isRepoError)
    ensures r.isCategoryError == category.GetOr(st.isCategoryError)
    ensures r.(isUserError := st.isUserError, isRepoError := st.isRepoError, isCategoryError := st.isCategoryError) == st
  {
    st.(isUserError := user.GetOr(st.isUserError),
        isRepoError := repo.GetOr(st.isRepoError),
        isCategoryError := category.GetOr(st.isCategoryError))
  }

  /** `validateUserInput`: the flag reports an empty input, as typed (not trimmed). */
  function ValidateUser(st: FeedViewState): (r: FeedViewState)
    ensures r.isUserError <==> |st.user| == 0
    ensures r.(isUserError := st.isUserError) == st
  {
    st.(isUserError := st.user == "")
  }

  function ValidateRepo(st: FeedViewState): (r: FeedViewState)
    ensures r.isRepoError <==> |st.repo| == 0
    ensures r.(isRepoError := st.isRepoError) == st
  {
    st.(isRepoError := st.repo == "")
  }

  function ValidateCategory(st: FeedViewState): (r: FeedViewState)
    ensures r.isCategoryError <==> |st.category| == 0
    ensures r.(isCategoryError := st.isCategoryError) == st
  {
    st.(isCategoryError := st.category == "")
  }

  /** The link with each placeholder in turn replaced by the trimmed input. */
  function WithUser(link: string, st: FeedViewState): string {
    ReplaceAll(link, UserPlaceholder, Trim(st.user))
  }

  function WithRepo(link: string, st: FeedViewState): string {
    ReplaceAll(WithUser(link, st), RepoPlaceholder, Trim(st.repo))
  }

  function WithCategory(link: string, st: FeedViewState): string {
    ReplaceAll(WithRepo(link, st), CategoryPlaceholder, Trim(st.category))
  }

  /** The inputs, the catalog and the loading flag: everything but the three error flags. */
  predicate SameInputs(a: FeedViewState, b: FeedViewState) {
    a.data == b.data && a.user == b.user && a.repo == b.repo && a.category == b.category && a.isLoading == b.isLoading
  }

  /** `handleUser`: clear the other two flags, validate the user input, navigate if it is set. */
  function HandleUser(st: FeedViewState, feed: Feed): (r: Step)
    ensures SameInputs(r.state, st)
    ensures r.state.isUserError <==> |st.user| == 0
    ensures !r.state.isRepoError && !r.state.isCategoryError
    ensures |st.user| == 0 ==> r.events == []
    ensures |st.user| > 0 ==> r.events == [NavigateToEntryScreen(feed.(link := WithUser(feed.link, st)))]
  {
    var s1 := if st.isRepoError || st.isCategoryError then ClearErrors(st, None, Some(false), Some(false)) else st;
    var s2 := ValidateUser(s1);
    if s2.isUserError then Step(s2, [])
    else Step(s2, [NavigateToEntryScreen(feed.(link := WithUser(feed.link, s2)))])
  }

  /** `handleRepoDiscussions`: clear the category flag, validate user and repo, navigate if both are set. */
  function HandleRepoDiscussions(st: FeedViewState, feed: Feed): (r: Step)
    ensures SameInputs(r.state, st)
    ensures (r.state.isUserError <==> |st.user| == 0) && (r.state.isRepoError <==> |st.repo| == 0)
    ensures !r.state.isCategoryError
    ensures |st.user| == 0 || |st.repo| == 0 ==> r.events == []
    ensures |st.user| > 0 && |st.repo| > 0 ==> r.events == [NavigateToEntryScreen(feed.(link := WithRepo(feed.link, st)))]
  {
    var s1 := if st.isCategoryError then ClearErrors(st, None, None, Some(false)) else st;
    var s2 := ValidateRepo(ValidateUser(s1));
    if s2.isUserError || s2.isRepoError then Step(s2, [])
    else Step(s2, [NavigateToEntryScreen(feed.(link := WithRepo(feed.link, s2)))])
  }

  /** `handleRepoDiscussionsCategory`: validate all three inputs, navigate if all are set. */
  function HandleRepoDiscussionsCategory(st: FeedViewState, feed: Feed): (r: Step)
    ensures SameInputs(r.state, st)
    ensures (r.state.isUserError <==> |st.user| == 0) && (r.state.isRepoError <==> |st.repo| == 0)
    ensures r.state.isCategoryError <==> |st.category| == 0
    ensures |st.user| == 0 || |st.repo| == 0 || |st.category| == 0 ==> r.events == []
    ensures |st.user| > 0 && |st.repo| > 0 && |st.category| > 0 ==>
      r.events == [NavigateToEntryScreen(feed.(link := WithCategory(feed.link, st)))]
  {
    var s1 := ValidateCategory(ValidateRepo(ValidateUser(st)));
    if s1.isUserError || s1.isRepoError || s1.isCategoryError then Step(s1, [])
    else Step(s1, [NavigateToEntryScreen(feed.(link := WithCategory(feed.link, s1)))])
  }

  /** The inputs a feed key needs before the screen may navigate. */
  predicate InputsReady(st: FeedViewState, key: string) {
    if key == RepoDiscussionsCategoryKey then |st.user| > 0 && |st.repo| > 0 && |st.category| > 0
    else if key == RepoDiscussionsKey then |st.user| > 0 && |st.repo| > 0
    else if key == UserKey then |st.user| > 0
    else true
  }

  /** `handleFeedSelection`: dispatch on the feed key. */
  function HandleFeedSelection(st: FeedViewState, feed: Feed): (r: Step)
    ensures SameInputs(r.state, st)
    ensures |r.events| <= 1
    ensures |r.events| == 1 <==> InputsReady(st, feed.key)
    ensures forall e :: e in r.events ==> e.NavigateToEntryScreen? && e.feed.id == feed.id && e.feed.key == feed.key
    ensures feed.key !in {UserKey, RepoDiscussionsKey, RepoDiscussionsCategoryKey} ==> r == Step(st, [NavigateToEntryScreen(feed)])
  {
    if feed.key == RepoDiscussionsCategoryKey then HandleRepoDiscussionsCategory(st, feed)
    else if feed.key == RepoDiscussionsKey then HandleRepoDiscussions(st, feed)
    else if feed.key == UserKey then HandleUser(st, feed)
    else Step(st, [NavigateToEntryScreen(feed)])
  }

  /**
   `handleInit`: raise the loading flag, then apply the catalog result:
   success replaces the catalog, failure keeps it and reports an error.
   */
  function HandleInit(st: FeedViewState, response: Resource<seq<Feed>>): (r: Step)
    ensures !r.state.isLoading
    ensures response.Success? ==> r == Step(st.(data := response.data, isLoading := false), [])
    ensures response.Error? ==> r == Step(st.(isLoading := false), [DisplayUnknownErrorMessage])
  {
    var s1 := st.(isLoading := true);
    match response
    case Success(feeds) => Step(s1.(data := feeds, isLoading := false), [])
    case Error(_, _) => Step(s1.(isLoading := false), [DisplayUnknownErrorMessage])
  }

  /** `handleAction`; `catalog` is what the feeds use case returns, consulted by `OnInit` only. */
  function HandleAction(st: FeedViewState, action: FeedAction, catalog: Resource<seq<Feed>>): (r: Step)
    ensures action.UserInputUpdated? ==> r == Step(st.(user := action.text), [])
    ensures action.RepoInputUpdated? ==> r == Step(st.(repo := action.text), [])
    ensures action.CategoryInputUpdated? ==> r == Step(st.(category := action.text), [])
    ensures action.FeedSelected? ==> r == HandleFeedSelection(st, action.feed)
    ensures action.OnInit? ==> r == HandleInit(st, catalog)
  {
    match action
    case OnInit => HandleInit(st, catalog)
    case FeedSelected(feed) => HandleFeedSelection(st, feed)
    case UserInputUpdated(text) => Step(st.(user := text), [])
    case RepoInputUpdated(text) => Step(st.(repo := text), [])
    case CategoryInputUpdated(text) => Step(st.(category := text), [])
  }

  // ---------------------------------------------------------------------------
  // Properties

  /** Typing into one input changes that input and nothing else, and emits nothing. */
  lemma InputUpdateFrame(st: FeedViewState, action: FeedAction, catalog: Resource<seq<Feed>>)
    requires action.UserInputUpdated? || action.RepoInputUpdated? || action.CategoryInputUpdated?
    ensures var r := HandleAction(st, action, catalog);
      && r.events == []
      && r.state.data == st.data && r.state.isLoading == st.isLoading
      && r.state.isUserError == st.isUserError && r.state.isRepoError == st.isRepoError
      && r.state.isCategoryError == st.isCategoryError
      && (r.state.user != st.user ==> action.UserInputUpdated?)
      && (r.state.repo != st.repo ==> action.RepoInputUpdated?)
      && (r.state.category != st.category ==> action.CategoryInputUpdated?)
  {
  }

  /**
   Selecting the same feed again, with nothing typed in between, changes
   nothing further and navigates the same way.
   */
  lemma SelectionIdempotent(st: FeedViewState, feed: Feed)
    ensures var r1 := HandleFeedSelection(st, feed);
            var r2 := HandleFeedSelection(r1.state, feed);
            r2.state == r1.state && r2.events == r1.events
  {
    var r1 := HandleFeedSelection(st, feed);
    assert SameInputs(r1.state, st);
    assert WithUser(feed.link, r1.state) == WithUser(feed.link, st);
    assert WithRepo(feed.link, r1.state) == WithRepo(feed.link, st);
    assert WithCategory(feed.link, r1.state) == WithCategory(feed.link, st);
  }

  /**
   Validation looks at the raw input but substitution at the trimmed one: a
   user name made only of white space passes, and `{user}` is replaced by
   nothing.
   */
  lemma BlankUserNavigatesWithEmptyName(st: FeedViewState, feed: Feed)
    requires feed.key == UserKey && |st.user| > 0 && AllWhitespace(st.user)
    ensures HandleFeedSelection(st, feed).events
         == [NavigateToEntryScreen(feed.(link := ReplaceAll(feed.link, UserPlaceholder, "")))]
  {
    TrimEmpty(st.user);
  }

  lemma PlaceholdersUnbordered()
    ensures Unbordered(UserPlaceholder) && Unbordered(RepoPlaceholder) && Unbordered(CategoryPlaceholder)
  {
    forall k | 0 < k < |UserPlaceholder| ensures !BorderAt(UserPlaceholder, k) {
      assert UserPlaceholder[k..][0] != '{';
    }
    forall k | 0 < k < |RepoPlaceholder| ensures !BorderAt(RepoPlaceholder, k) {
      assert RepoPlaceholder[k..][0] != '{';
    }
    forall k | 0 < k < |CategoryPlaceholder| ensures !BorderAt(CategoryPlaceholder, k) {
      assert CategoryPlaceholder[k..][0] != '{';
    }
  }

  /**
   The user feed navigates to its link with every `{user}` replaced by the
   trimmed user name and the rest of the link as it was: for a link written
   as pieces without the placeholder, joined by it, the navigated link is
   the same pieces joined by the name.
   */
  lemma UserLinkSubstituted(st: FeedViewState, feed: Feed, pieces: seq<string>)
    requires feed.key == UserKey && |st.user| > 0
    requires |pieces| > 0 && Join(pieces, UserPlaceholder) == feed.link
    requires forall k :: 0 <= k < |pieces| ==> Free(pieces[k], UserPlaceholder)
    ensures HandleFeedSelection(st, feed).events
         == [NavigateToEntryScreen(feed.(link := Join(pieces, Trim(st.user))))]
  {
    PlaceholdersUnbordered();
    ReplaceJoin(pieces, UserPlaceholder, Trim(st.user));
  }

  /**
   The repository-discussions feed replaces `{user}` first, then `{repo}` in
   the text that results. With the link written as pieces joined by
   `{user}`, and the text after the first replacement as pieces joined by
   `{repo}`, the navigated link is the second pieces joined by the trimmed
   repository name.
   */
  lemma RepoLinkSubstituted(st: FeedViewState, feed: Feed, userPieces: seq<string>, repoPieces: seq<string>)
    requires feed.key == RepoDiscussionsKey && |st.user| > 0 && |st.repo| > 0
    requires |userPieces| > 0 && Join(userPieces, UserPlaceholder) == feed.link
    requires forall k :: 0 <= k < |userPieces| ==> Free(userPieces[k], UserPlaceholder)
    requires |repoPieces| > 0 && Join(repoPieces, RepoPlaceholder) == Join(userPieces, Trim(st.user))
    requires forall k :: 0 <= k < |repoPieces| ==> Free(repoPieces[k], RepoPlaceholder)
    ensures HandleFeedSelection(st, feed).events
         == [NavigateToEntryScreen(feed.(link := Join(repoPieces, Trim(st.repo))))]
  {
    PlaceholdersUnbordered();
    ReplaceJoin(userPieces, UserPlaceholder, Trim(st.user));
    ReplaceJoin(repoPieces, RepoPlaceholder, Trim(st.repo));
  }

  /**
   The category feed replaces `{user}`, then `{repo}`, then `{category}`,
   each in the text the previous replacement left, and navigates to the last
   pieces joined by the trimmed category.
   */
  lemma CategoryLinkSubstituted(st: FeedViewState, feed: Feed, userPieces: seq<string>,
                                repoPieces: seq<string>, categoryPieces: seq<string>)
    requires feed.key == RepoDiscussionsCategoryKey && |st.user| > 0 && |st.repo| > 0 && |st.category| > 0
    requires |userPieces| > 0 && Join(userPieces, UserPlaceholder) == feed.link
    requires forall k :: 0 <= k < |userPieces| ==> Free(userPieces[k], UserPlaceholder)
    requires |repoPieces| > 0 && Join(repoPieces, RepoPlaceholder) == Join(userPieces, Trim(st.user))
    requires forall k :: 0 <= k < |repoPieces| ==> Free(repoPieces[k], RepoPlaceholder)
    requires |categoryPieces| > 0 && Join(categoryPieces, CategoryPlaceholder) == Join(repoPieces, Trim(st.repo))
    requires forall k :: 0 <= k < |categoryPieces| ==> Free(categoryPieces[k], CategoryPlaceholder)
    ensures HandleFeedSelection(st, feed).events
         == [NavigateToEntryScreen(feed.(link := Join(categoryPieces, Trim(st.category))))]
  {
    PlaceholdersUnbordered();
    ReplaceJoin(userPieces, UserPlaceholder, Trim(st.user));
    ReplaceJoin(repoPieces, RepoPlaceholder, Trim(st.repo));
    ReplaceJoin(categoryPieces, CategoryPlaceholder, Trim(st.category));
  }

  /**
   The replacements happen one after the other, not at once: a user name
   that is itself `{repo}` is replaced again by the repository name, so the
   link `{user}{repo}` becomes `xx` and not `{repo}x`.
   */
  lemma ChainedReplacement(st: FeedViewState, link: string)
    requires st.user == "{repo}" && st.repo == "x" && link == "{user}{repo}"
    ensures WithRepo(link, st) == "xx"
  {
    TrimUnspaced(st.user);
    TrimUnspaced(st.repo);
    ChainedText();
  }

  /** The two replacements of `ChainedReplacement`, on the text alone. */
  lemma ChainedText()
    ensures ReplaceAll(ReplaceAll("{user}{repo}", "{user}", "{repo}"), "{repo}", "x") == "xx"
  {
  }

  /** Text shorter than a pattern is free of it. */
  lemma FreeOfShorter(s: string, p: string)
    requires |s| < |p|
    ensures Free(s, p)
  {
  }

  /** Text as long as a pattern and different from it is free of it. */
  lemma FreeOfOther(s: string, p: string)
    requires |s| == |p| && s != p
    ensures Free(s, p)
  {
    assert !OccursAt(s, p, 0) by {
      assert s[0..|p|] == s;
    }
  }

  /** After any selection, each error flag that the feed's key validates reports its input as empty. */
  lemma SelectionFlagsMatchInputs(st: FeedViewState, feed: Feed)
    requires feed.key in {UserKey, RepoDiscussionsKey, RepoDiscussionsCategoryKey}
    ensures var s := HandleFeedSelection(st, feed).state;
      && (s.isUserError <==> |st.user| == 0)
      && (s.isRepoError <==> feed.key != UserKey && |st.repo| == 0)
      && (s.isCategoryError <==> feed.key == RepoDiscussionsCategoryKey && |st.category| == 0)
  {
  }
}
