# iTo feed reader: a verified model of its core

This project models in Dafny the core of an Android reader for GitHub's Atom
feeds. The reader works in four steps:

- It fetches the catalog of feeds a GitHub account offers and keeps it in a
  local database.
- When the user picks a feed, it substitutes the user, repository and
  category the user typed into the feed's link.
- It downloads the Atom document, parses its entries, reformats their
  publication dates and replaces that feed's cached entries.
- Two screens show the result: the feed catalog and the entries of one feed.

The modules follow the program's structure:

- `Results`: `Option` and `Result`.
- `Model`: the shared records `EntryResponse`, `Entry`, `Feed`,
  `FeedResponse`, `LinkResponse`, and `Resource` with its `ErrorType`.
- `XmlEvents`: the parser's input, a pre-tokenised sequence of pull-parser
  events (`Start`, `End`, `Text`, `EndDoc`), and the element trees such
  sequences serialise.
- `XmlParser`: `XMLParser`. Each `readX` is a function from a cursor to the
  value read plus the new cursor, or to the exception the parser throws.
- `AtomReference`: an independent tree-level statement of what the parser
  computes, and the theorems that connect the two.
- `EntryMapper` and `FeedMapper`: `toEntry` with its date reformatter, and
  `toFeed`.
- `Cache`: the Room tables as a value. It holds the feed and entry rows and
  their auto-increment counters, with the DAO queries the repository
  issues. It also records every DAO call in a trace that can be replayed.
- `Repository`: `GithubFeedRepositoryImpl`. It takes a connectivity flag and
  the outcome of the network call (`Code(status, body)` or `Thrown`), and
  returns the `Resource`, the store afterwards and the DAO calls made.
  Whether the HTTP client accepts a feed's link as a URL is one more
  argument of `getEntries`, because a rejected link throws out of it.
- `Text`: Kotlin's `trim()` and `replace(old, new)` on strings.
- `FeedViewModel` and `EntryViewModel`: the screens' state machines as pure
  functions, from a state and an input to the next state and the emitted
  events.

## Model

All source paths below are under `app/src/main/java/com/puras/itoandroidassignment/`
except the test file, whose path is written out.

| member | source | states |
|---|---|---|
| XmlParser.Next | app/src/main/java/com/puras/itoandroidassignment/util/XMLParser.kt:29 | `next()` advances the cursor by one, and fails exactly when there is no event left |
| XmlParser.TagFrom | app/src/main/java/com/puras/itoandroidassignment/util/XMLParser.kt:21 | `nextTag()` stops on a start or end tag, passing over at most one whitespace-only text; a tag under the cursor is returned as it is |
| XmlParser.Require | app/src/main/java/com/puras/itoandroidassignment/util/XMLParser.kt:28 | `require` succeeds if and only if the current event is a tag of the required kind and name |
| XmlParser.ReadText | app/src/main/java/com/puras/itoandroidassignment/util/XMLParser.kt:119-127 | the text right after the start tag, with the cursor moved on to a tag; `""` with the cursor on the next event when that event is no text |
| XmlParser.ReadField | app/src/main/java/com/puras/itoandroidassignment/util/XMLParser.kt:79-101 | `readId`/`readPublished`/`readTitle` accept only a start tag of their name; they return its text, or `""` for an empty element, and leave the cursor on the matching end tag |
| XmlParser.ReadLink | app/src/main/java/com/puras/itoandroidassignment/util/XMLParser.kt:103-117 | a link is read only when `rel` is literally `alternate`; the value is its `href` and the cursor ends on the closing `link` tag; any other or missing `rel` makes the read fail |
| XmlParser.Skip | app/src/main/java/com/puras/itoandroidassignment/util/XMLParser.kt:43-55 | `skip` fails off a start tag; otherwise it stops on an end tag where the nesting since the start tag returns to 0 and never reaches 0 before |
| XmlParser.ReadEntry | app/src/main/java/com/puras/itoandroidassignment/util/XMLParser.kt:57-77 | an entry is read only from an `entry` start tag and ends on an end tag; media, author and content stay null |
| XmlParser.EntryFields | app/src/main/java/com/puras/itoandroidassignment/util/XMLParser.kt:64-75 | the `readEntry` loop leaves media, author and content as they were and ends on an end tag |
| XmlParser.ReadFeed | app/src/main/java/com/puras/itoandroidassignment/util/XMLParser.kt:26-41 | a feed is read only from a `feed` start tag; every record it yields has null media, author and content |
| XmlParser.FeedEntries | app/src/main/java/com/puras/itoandroidassignment/util/XMLParser.kt:29-39 | the `readFeed` loop only appends to the records already read, and every record it appends has null media, author and content |
| XmlParser.Parse | app/src/main/java/com/puras/itoandroidassignment/util/XMLParser.kt:15-24 | parsing succeeds only when the first tag is a `feed` start tag and fails with a `require` error when the first tag is another one; no record carries media, author or content |
| AtomReference.SetField | app/src/main/java/com/puras/itoandroidassignment/util/XMLParser.kt:68-73 | capturing one field sets that field and leaves the other three and media, author and content unchanged |
| AtomReference.SkipElement | app/src/main/java/com/puras/itoandroidassignment/util/XMLParser.kt:43-55 | `skip` on the start tag of a serialised element stops exactly on that element's own end tag |
| AtomReference.ReadTextField | app/src/main/java/com/puras/itoandroidassignment/util/XMLParser.kt:79-101 | a text element is read as its text (or `""` when empty), and the cursor is left on its end tag |
| AtomReference.ReadAlternateLink | app/src/main/java/com/puras/itoandroidassignment/util/XMLParser.kt:103-117 | an `alternate` link element is read as its `href`, and the cursor is left on its end tag |
| AtomReference.ReadEntryElement | app/src/main/java/com/puras/itoandroidassignment/util/XMLParser.kt:57-77 | a readable `entry` element is read as the record its children build, and the cursor is left on its end tag |
| AtomReference.FeedChildren | app/src/main/java/com/puras/itoandroidassignment/util/XMLParser.kt:29-39 | over the serialised children of `feed`, the loop appends the records of the `entry` children in order; other children add nothing |
| AtomReference.ParseFeedDocument | app/src/main/java/com/puras/itoandroidassignment/util/XMLParser.kt:15-41 | a readable `feed` document, followed by anything, parses to one record per `entry` child in document order; the count equals the number of `entry` children |
| AtomReference.OtherLinkFailsParse | app/src/main/java/com/puras/itoandroidassignment/util/XMLParser.kt:108-115 | a `link` whose `rel` is missing or not `alternate`, in any entry reached, makes the whole parse fail |
| AtomReference.AbsentFieldKept | app/src/main/java/com/puras/itoandroidassignment/util/XMLParser.kt:60-63 | a field whose element does not occur in an entry stays null |
| AtomReference.LastFieldWins | app/src/main/java/com/puras/itoandroidassignment/util/XMLParser.kt:68-73 | when a field element repeats in an entry, its last occurrence is the value kept |
| EntryMapper.LeadingDigits | app/src/main/java/com/puras/itoandroidassignment/data/mapper/EntryMapper.kt:27 | the longest all-digit prefix of the text: it ends at the first non-digit |
| EntryMapper.ParseZone | app/src/main/java/com/puras/itoandroidassignment/data/mapper/EntryMapper.kt:27 | an accepted designator is `Z` or a signed `hh:mm` within 18 hours and 59 minutes; it is UTC exactly for `Z`, `z`, `+00:00` and `-00:00`, and any other accepted offset is spelled by its sign, hours and minutes |
| EntryMapper.ParseZoneText | app/src/main/java/com/puras/itoandroidassignment/data/mapper/EntryMapper.kt:27 | every zone the model holds is read back from its designator |
| EntryMapper.ZonedParse | app/src/main/java/com/puras/itoandroidassignment/data/mapper/EntryMapper.kt:27 | `ZonedDateTime.parse` accepts only a valid date (month length and leap years included) and a valid time; the fields it returns are the input's own date, hour and minute, its seconds or `00`, the digits after a point as the fraction, and the zone read from the rest of the text |
| EntryMapper.NanoTextValue | app/src/main/java/com/puras/itoandroidassignment/data/mapper/EntryMapper.kt:27 | `toString` prints the nanoseconds with 3, 6 or 9 digits that stand for the same value |
| EntryMapper.ParseWithFraction | app/src/main/java/com/puras/itoandroidassignment/data/mapper/EntryMapper.kt:27 | a valid time written with seconds, a point and digits, then a zone, parses to exactly that time with those digits as the fraction |
| EntryMapper.ZonedParseRender | app/src/main/java/com/puras/itoandroidassignment/data/mapper/EntryMapper.kt:27 | parsing the canonical text of a time gives back the same time, with the fraction written as the printer writes it |
| EntryMapper.TryFormat | app/src/main/java/com/puras/itoandroidassignment/data/mapper/EntryMapper.kt:29-31 | a fixed-width pattern parses the text if and only if the text's prefix fits it, and then yields the characters at the date, hour and minute positions |
| EntryMapper.DisplayableDate | app/src/main/java/com/puras/itoandroidassignment/data/mapper/EntryMapper.kt:24-53 | a null date stays null; a present date gives a result exactly when the zoned parser accepts it, and otherwise throws; a present, accepted date never becomes null |
| EntryMapper.DisplayOfRender | app/src/main/java/com/puras/itoandroidassignment/data/mapper/EntryMapper.kt:27-52 | printing a parsed time canonically and trying the three patterns in order gives the field-level display: date, hour, minute and seconds, or `""` for a non-UTC offset with zero seconds |
| EntryMapper.DisplayableDateShape | app/src/main/java/com/puras/itoandroidassignment/data/mapper/EntryMapper.kt:33-45 | a reformatted date is `yyyy-MM-dd, HH:mm:ss` built from the input's own characters, with `00` seconds when the input has none, or else `""` |
| EntryMapper.BlankDisplay | app/src/main/java/com/puras/itoandroidassignment/data/mapper/EntryMapper.kt:34-52 | a parsed date becomes `""` if and only if it has a non-UTC offset and zero seconds and nanoseconds |
| EntryMapper.DisplayExample | app/src/main/java/com/puras/itoandroidassignment/data/mapper/EntryMapper.kt:33-37 | `2024-01-02T03:04:05Z` is displayed as `2024-01-02, 03:04:05` |
| EntryMapper.ToEntry | app/src/main/java/com/puras/itoandroidassignment/data/mapper/EntryMapper.kt:11-22 | the entry carries the given feed key, the response id as `githubId`, link, title, media, author and content unchanged, and the reformatted date; it throws exactly when the date does; id is 0 |
| FeedMapper.ToFeed | app/src/main/java/com/puras/itoandroidassignment/data/mapper/FeedMapper.kt:6-11 | the feed keeps the map key as its key and the link's `href` as its link; its id is 0 so the store assigns one |
| FeedMapper.ToFeeds | app/src/main/java/com/puras/itoandroidassignment/data/repository/GithubFeedRepositoryImpl.kt:67-68 | one feed per catalog entry, in catalog order |
| FeedMapper.ToFeedsKeysDistinct | app/src/main/java/com/puras/itoandroidassignment/data/mapper/FeedMapper.kt:6-11 | the feeds have distinct keys if and only if the catalog entries do |
| FeedMapper.ToFeedsCoversCatalog | app/src/main/java/com/puras/itoandroidassignment/data/mapper/FeedMapper.kt:6-11 | a feed with a given key and link exists exactly when the catalog has that key with that `href` |
| Cache.EntriesFor | app/src/main/java/com/puras/itoandroidassignment/data/local/dao/EntryDao.kt:18-19 | the selected rows are exactly the rows of the given feed key |
| Cache.EntriesNotFor | app/src/main/java/com/puras/itoandroidassignment/data/local/dao/EntryDao.kt:15-16 | the rows left by the delete are exactly those of other feed keys |
| Cache.EntriesForAfterDelete | app/src/main/java/com/puras/itoandroidassignment/data/local/dao/EntryDao.kt:15-19 | deleting one key's rows leaves every other key's rows as they were, in order |
| Cache.EntriesForDeleted | app/src/main/java/com/puras/itoandroidassignment/data/local/dao/EntryDao.kt:15-19 | after deleting a key's rows, selecting that key yields nothing |
| Cache.EntriesForAppend | app/src/main/java/com/puras/itoandroidassignment/data/local/dao/EntryDao.kt:18-19 | selecting one key's rows from two row runs gives the rows selected from each, in order |
| Cache.DeleteAllFeeds | app/src/main/java/com/puras/itoandroidassignment/data/local/dao/FeedDao.kt:23-24 | the feed table is emptied and the entry table is untouched |
| Cache.InsertFeeds | app/src/main/java/com/puras/itoandroidassignment/data/local/dao/FeedDao.kt:16-18 | the new rows go after the existing ones, equal to the given feeds up to their generated ids |
| Cache.DeleteEntries | app/src/main/java/com/puras/itoandroidassignment/data/local/dao/EntryDao.kt:15-16 | no row of the key remains and the feed table is untouched |
| Cache.InsertEntries | app/src/main/java/com/puras/itoandroidassignment/data/local/dao/EntryDao.kt:12-13 | the new rows go after the existing ones, equal to the given entries up to their generated ids |
| Repository.StoreFeeds | app/src/main/java/com/puras/itoandroidassignment/data/repository/GithubFeedRepositoryImpl.kt:66-72 | afterwards the feed table holds exactly the mapped catalog, up to generated ids; entries are untouched |
| Repository.GetFeeds | app/src/main/java/com/puras/itoandroidassignment/data/repository/GithubFeedRepositoryImpl.kt:30-64 | offline serves the cached feeds with one read; 404 gives NOT_FOUND and other codes and exceptions of the network call give UNKNOWN, each without data, store change or DAO call; 200 with a body issues exactly delete-all, insert, read and returns the new table, which equals the mapped catalog up to ids; the trace replays to the final store |
| Repository.MapEntries | app/src/main/java/com/puras/itoandroidassignment/data/repository/GithubFeedRepositoryImpl.kt:116-117 | the mapping succeeds if and only if every entry's mapping does, and then maps element by element in order |
| Repository.StoreEntries | app/src/main/java/com/puras/itoandroidassignment/data/repository/GithubFeedRepositoryImpl.kt:115-120 | afterwards the feed key's rows are exactly the mapped entries up to ids; other keys' rows and the feed table are untouched |
| Repository.RefreshEntries | app/src/main/java/com/puras/itoandroidassignment/data/repository/GithubFeedRepositoryImpl.kt:91-95 | a parse or date failure gives UNKNOWN with no DAO call and the store unchanged, because both happen before the delete; otherwise exactly delete, insert, read, returning the key's rows, which equal the mapped entries up to ids |
| Repository.FetchEntries | app/src/main/java/com/puras/itoandroidassignment/data/repository/GithubFeedRepositoryImpl.kt:79-113 | once the request is built: offline serves the key's cached rows; 404 gives NOT_FOUND and other codes and exceptions of the call give UNKNOWN, without data or store change; 200 with no body serves the cache; 200 with a body refreshes; other keys' rows and the feed table are never touched; the trace replays to the final store |
| Repository.GetEntries | app/src/main/java/com/puras/itoandroidassignment/data/repository/GithubFeedRepositoryImpl.kt:74-113 | the request is built from the feed's link first and outside the `try`: a link the HTTP client rejects throws out of `getEntries` whatever the connectivity, and an accepted one leads to what `FetchEntries` states |
| Repository.GetFeedsIdempotent | app/src/main/java/com/puras/itoandroidassignment/data/repository/GithubFeedRepositoryImpl.kt:43-46 | refreshing the catalog twice from one response yields the same feeds up to ids |
| Repository.GetEntriesIdempotent | app/src/main/java/com/puras/itoandroidassignment/data/repository/GithubFeedRepositoryImpl.kt:91-95 | refreshing a feed twice from one response yields the same entries up to ids, whenever the first refresh succeeds |
| Repository.GetEntriesOfDocument | app/src/main/java/com/puras/itoandroidassignment/data/repository/GithubFeedRepositoryImpl.kt:91-95 | for an accepted link, a readable Atom document whose dates parse refreshes the feed to one row per `entry` element, in document order, each stamped with the feed's key |
| Text.LeadingSpace | app/src/main/java/com/puras/itoandroidassignment/presentation/feed/FeedViewModel.kt:95 | the leading run of white space, ending at the first other character |
| Text.TrailingSpace | app/src/main/java/com/puras/itoandroidassignment/presentation/feed/FeedViewModel.kt:95 | the trailing run of white space, starting after the last other character |
| Text.Trim | app/src/main/java/com/puras/itoandroidassignment/presentation/feed/FeedViewModel.kt:95 | `trim()` yields a slice of the input cut only at white space, and the slice neither starts nor ends with white space |
| Text.TrimIdempotent | app/src/main/java/com/puras/itoandroidassignment/presentation/feed/FeedViewModel.kt:95 | trimming twice is trimming once |
| Text.TrimEmpty | app/src/main/java/com/puras/itoandroidassignment/presentation/feed/FeedViewModel.kt:95 | an input trims to `""` if and only if it is all white space |
| Text.Split | app/src/main/java/com/puras/itoandroidassignment/presentation/feed/FeedViewModel.kt:95 | cutting text at the pattern's occurrences gives pieces free of the pattern that, joined by it, give back the text |
| Text.ReplaceFree | app/src/main/java/com/puras/itoandroidassignment/presentation/feed/FeedViewModel.kt:95 | `replace` leaves text without the pattern unchanged |
| Text.ReplaceBySelf | app/src/main/java/com/puras/itoandroidassignment/presentation/feed/FeedViewModel.kt:95 | replacing a pattern by itself changes nothing |
| Text.ReplaceJoin | app/src/main/java/com/puras/itoandroidassignment/presentation/feed/FeedViewModel.kt:95 | for a pattern like `{user}`, text built from pattern-free pieces joined by the pattern becomes those pieces joined by the replacement |
| Text.ReplaceAllIsSubstitution | app/src/main/java/com/puras/itoandroidassignment/presentation/feed/FeedViewModel.kt:112-114 | for a pattern like `{user}`, `replace` substitutes every occurrence and changes nothing else |
| FeedViewModel.ClearErrors | app/src/main/java/com/puras/itoandroidassignment/presentation/feed/FeedViewModel.kt:139-151 | each given flag is set, each flag not given is kept, and nothing else changes |
| FeedViewModel.ValidateUser | app/src/main/java/com/puras/itoandroidassignment/presentation/feed/FeedViewModel.kt:153-159 | the user error flag holds if and only if the raw user input is empty; nothing else changes |
| FeedViewModel.ValidateRepo | app/src/main/java/com/puras/itoandroidassignment/presentation/feed/FeedViewModel.kt:161-167 | the repo error flag holds if and only if the raw repo input is empty; nothing else changes |
| FeedViewModel.ValidateCategory | app/src/main/java/com/puras/itoandroidassignment/presentation/feed/FeedViewModel.kt:169-175 | the category error flag holds if and only if the raw category input is empty; nothing else changes |
| FeedViewModel.HandleUser | app/src/main/java/com/puras/itoandroidassignment/presentation/feed/FeedViewModel.kt:82-99 | it navigates if and only if the user input is non-empty, with `{user}` replaced by the trimmed input; afterwards the user flag reports an empty input, the repo and category flags are clear, and the inputs are unchanged |
| FeedViewModel.HandleRepoDiscussions | app/src/main/java/com/puras/itoandroidassignment/presentation/feed/FeedViewModel.kt:101-118 | it navigates if and only if user and repo are both non-empty, with both placeholders replaced by the trimmed inputs; the user and repo flags report empty inputs and the category flag is clear |
| FeedViewModel.HandleRepoDiscussionsCategory | app/src/main/java/com/puras/itoandroidassignment/presentation/feed/FeedViewModel.kt:120-137 | it navigates if and only if all three inputs are non-empty, with all three placeholders replaced; each flag reports whether its input is empty |
| FeedViewModel.HandleFeedSelection | app/src/main/java/com/puras/itoandroidassignment/presentation/feed/FeedViewModel.kt:73-80 | at most one event, emitted exactly when the inputs the key needs are present; it navigates with the feed's id and key kept; any other key navigates with the feed unchanged and no state change |
| FeedViewModel.HandleInit | app/src/main/java/com/puras/itoandroidassignment/presentation/feed/FeedViewModel.kt:177-191 | loading ends; success installs the feeds silently; an error keeps the data and emits the unknown-error message |
| FeedViewModel.HandleAction | app/src/main/java/com/puras/itoandroidassignment/presentation/feed/FeedViewModel.kt:62-70 | each action goes to its handler, and an input update replaces only its own text |
| FeedViewModel.InputUpdateFrame | app/src/main/java/com/puras/itoandroidassignment/presentation/feed/FeedViewModel.kt:66-68 | typing into one input changes only that input and emits nothing |
| FeedViewModel.SelectionIdempotent | app/src/main/java/com/puras/itoandroidassignment/presentation/feed/FeedViewModel.kt:73-137 | selecting the same feed again changes nothing further and navigates the same way |
| FeedViewModel.BlankUserNavigatesWithEmptyName | app/src/main/java/com/puras/itoandroidassignment/presentation/feed/FeedViewModel.kt:95 | a user name of white space only passes the emptiness check, and `{user}` is then replaced by nothing |
| FeedViewModel.PlaceholdersUnbordered | app/src/main/java/com/puras/itoandroidassignment/presentation/feed/FeedViewModel.kt:95 | no two occurrences of `{user}`, `{repo}` or `{category}` can overlap |
| FeedViewModel.UserLinkSubstituted | app/src/main/java/com/puras/itoandroidassignment/presentation/feed/FeedViewModel.kt:92-98 | the user feed navigates to its link with every `{user}` replaced by the trimmed name and the rest of the link unchanged |
| FeedViewModel.RepoLinkSubstituted | app/src/main/java/com/puras/itoandroidassignment/presentation/feed/FeedViewModel.kt:112-115 | the repository feed replaces every `{user}` by the trimmed name, then every `{repo}` in the result by the trimmed repository, and changes nothing else |
| FeedViewModel.CategoryLinkSubstituted | app/src/main/java/com/puras/itoandroidassignment/presentation/feed/FeedViewModel.kt:130-134 | the category feed replaces `{user}`, then `{repo}`, then `{category}`, each in the text the previous replacement left, and changes nothing else |
| FeedViewModel.ChainedReplacement | app/src/main/java/com/puras/itoandroidassignment/presentation/feed/FeedViewModel.kt:113-114 | the replacements are made one after the other: with user `{repo}` and repo `x`, the link `{user}{repo}` becomes `xx` |
| FeedViewModel.SelectionFlagsMatchInputs | app/src/main/java/com/puras/itoandroidassignment/presentation/feed/FeedViewModel.kt:84-90 | after selecting one of the three parameterised feeds, each flag its key validates reports whether its input is empty, and the others are clear |
| EntryViewModel.StartFetch | app/src/main/java/com/puras/itoandroidassignment/presentation/entry/EntryViewModel.kt:66 | a fetch raises the loading flag before the use case is consulted, keeping the data |
| EntryViewModel.ErrorEvent | app/src/main/java/com/puras/itoandroidassignment/presentation/entry/EntryViewModel.kt:76-79 | NOT_FOUND shows the not-found message and only NOT_FOUND does |
| EntryViewModel.GetEntries | app/src/main/java/com/puras/itoandroidassignment/presentation/entry/EntryViewModel.kt:65-84 | loading ends; success replaces the data and emits nothing; an error keeps the data and emits exactly the message for its kind |
| EntryViewModel.OnConnectivity | app/src/main/java/com/puras/itoandroidassignment/presentation/entry/EntryViewModel.kt:57-63 | a notification refetches exactly when it reports a connection and the screen is empty and idle; otherwise nothing happens |
| EntryViewModel.OneEventPerFailure | app/src/main/java/com/puras/itoandroidassignment/presentation/entry/EntryViewModel.kt:65-84 | a fetch emits at most one event, and one exactly when it fails |
| EntryViewModel.NoRefetchOnceFilled | app/src/main/java/com/puras/itoandroidassignment/presentation/entry/EntryViewModel.kt:59 | once a fetch has shown rows, no connectivity change fetches again |
| EntryViewModel.RefetchAfterFailedStart | app/src/main/java/com/puras/itoandroidassignment/presentation/entry/EntryViewModel.kt:59-61 | after a failed first fetch, the next notification that reports a connection fetches again, and one that does not, does not |
| EntryViewModel.OfflineShowsCachedRows | app/src/main/java/com/puras/itoandroidassignment/data/repository/GithubFeedRepositoryImpl.kt:74-110 | offline, and for a link the HTTP client accepts, the entry screen shows exactly the cached rows of the selected feed and no message; a rejected link makes the repository call throw instead |

The repository's disconnected, 404, other-status, timeout and 200 cases
agree with the cases in
`app/src/test/java/com/puras/itoandroidassignment/data/repository/GithubFeedRepositoryTest.kt`
(lines 50-110). That test's fixed catalog (lines 113-133) is also the source
of the three feed keys the feed screen dispatches on: `user`,
`repository_discussions` and `repository_discussions_category`.

Where the code and its documentation disagree, the model follows the code:

- A `link` element whose `rel` is missing or not `alternate` is not ignored.
  The reader stays on its start tag, so the closing `require` throws, and the
  whole parse fails (`AtomReference.OtherLinkFailsParse`).
- An offset date-time whose seconds are zero reformats to `""`, not to a
  time with `:00`. `ZonedDateTime.toString()` leaves the seconds out, and its
  offset suffix then fits none of the three patterns
  (`EntryMapper.BlankDisplay`).
- The placeholders of a feed link are replaced one after another, each in
  the text the previous replacement left, not all at once. A user input
  that itself contains `{repo}` is therefore replaced again by the
  repository name (`FeedViewModel.ChainedReplacement`).

## Left out

- User interface, navigation and dependency wiring (the Compose screens, `MainActivity`, the Hilt modules and the HTTP timeouts configured there): no model logic.
- Connectivity detection (`NetworkStatusTracker`, `IsNetworkAvailable`): Android callbacks. Connectivity is a boolean argument of each operation, and a sequence of notifications is a sequence of `OnConnectivity` calls.
- The HTTP stack (OkHttp, Retrofit, Gson, `GithubApi`): replaced by the `Outcome` datatype, either a status code with an optional body or a thrown exception. OkHttp's URL validation, done when the `Request` is built (`GithubFeedRepositoryImpl.kt:75-78`), is the boolean argument `urlAccepted` of `Repository.GetEntries`. The exception that follows a rejected link is not caught by `EntryViewModel.getEntries` (lines 65-84) and ends the coroutine; what the app does then is outside the model.
- Repository.GetFeeds: the DAO calls are taken never to throw. In the source, an exception from `insertList` after `deleteAll` (lines 70-71) is caught by the `catch` at lines 53-56, which returns UNKNOWN with the feed table already emptied. The model's promise that an error leaves the store unchanged does not cover that case.
- Repository.FetchEntries: the DAO calls are taken never to throw. In the source, an exception from `insertList` after `delete` (lines 118-119) is caught by the `catch` at lines 102-105, which returns UNKNOWN with the feed's rows already deleted. The model's promise that an error leaves the store unchanged does not cover that case.
- Cache.EntriesFor: rows come back in insertion order. The two SELECTs (`EntryDao.kt:18`, `FeedDao.kt:29`) have no `ORDER BY`, so SQLite does not promise an order. A plain scan of these tables returns rows in rowid order, which is insertion order here, and the model assumes that.
- Decoding the catalog JSON: `FeedResponse.links` is given already decoded, as the map's entries in order.
- Room internals: the DAOs are modelled as the queries they declare, without transactions. The delete and the insert are two separate calls, which is what the call trace records. `FeedDao` declares `getFeeds()` while the repository calls `feedDao.get()`, and `EntryDao` is used while the database wires `TimelineEntryDao`. The model reads the feed table for the former and models `EntryDao` for the latter.
- `GetFeedsUseCase` and `GetEntriesUseCase`: pass-through calls. The view models take the `Resource` they would return as an argument.
- XML tokenisation inside `XmlPullParser`: the input is a pre-tokenised event sequence. Entity decoding, attribute namespaces and splitting of text into several events are not modelled.
- Coroutines, flows, dispatchers and Timber logging: events are returned as a sequence in emission order, and logging has no effect.
- EntryMapper.ZonedParse: covers `yyyy-MM-ddTHH:mm[:ss[.fraction]]` followed by `Z` or `±hh:mm`, in either letter case. That is the RFC 3339 section 5.6 form GitHub's feeds use. The following are not modelled, so inputs using them count as rejected:
  - region-id zones such as `[Europe/Paris]`;
  - offsets with seconds;
  - years outside four digits.
- EntryMapper.DisplayOf: `SimpleDateFormat` is modelled as a fixed-width match of its pattern against a prefix of the canonical text. The pattern's `'Z'` is a literal, and parsing and formatting use the same default zone, so the source also keeps the wall-clock fields as written; the model does the same. What it leaves out is the lenient calendar arithmetic between the two steps. A wall-clock time that does not exist in the device's zone (one inside a daylight-saving gap) is rolled forward by the source. So is a date in the ten days the Julian-to-Gregorian cutover of October 1582 removed. The model shows both as written. The default locale is not modelled either.
- XmlParser.ReadLink: a `link` with `rel="alternate"` but no `href` fails with `MissingHref`. That stands for the null-pointer exception Kotlin raises when a null platform string is stored in a non-null variable.
- Text.ReplaceAll: modelled for non-empty patterns only. The three placeholders are non-empty, and `replace` with an empty pattern is never called.
- The constants file that declares `USER`, `REPO_DISCUSSIONS` and `REPO_DISCUSSIONS_CATEGORY` is not part of this model. Their values are taken from the repository test's catalog, as said above.
