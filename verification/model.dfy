/**
 The plain records shared by the parser, the mappers, the repository and the
 view models: the network-side records (`EntryResponse`, `FeedResponse`,
 `LinkResponse`), the stored records (`Entry`, `Feed`) and the `Resource`
 result type with its `ErrorType`.
 */
module Model {
  import opened Results

  /** One Atom entry as read from the network; every field may be absent. */
  datatype EntryResponse = EntryResponse(
    id: Option<string>,
    published: Option<string>,
    link: Option<string>,
    title: Option<string>,
    media: Option<string>,
    author: Option<string>,
    content: Option<string>)

  /** An `EntryResponse` built with every constructor default (all null). */
  const NoFields := EntryResponse(None, None, None, None, None, None, None)

  /**
   A stored entry row. `id` is the auto-generated primary key; `0` means
   "not assigned yet", which makes the store assign the next one.
   */
  datatype Entry = Entry(
    id: int,
    feedKey: string,
    githubId: Option<string>,
    published: Option<string>,
    link: Option<string>,
    title: Option<string>,
    media: Option<string>,
    author: Option<string>,
    content: Option<string>)

  /** A stored feed row; `id` is auto-generated as for `Entry`. */
  datatype Feed = Feed(id: int, key: string, link: string)

  /** The link object of one catalog entry. */
  datatype LinkResponse = LinkResponse(href: string)

  /** One `Map.Entry<String, LinkResponse>` of the catalog's `_links` map. */
  datatype CatalogLink = CatalogLink(key: string, value: LinkResponse)

  /**
   The decoded catalog. The JSON decoder builds `_links` as an
   insertion-ordered map, so it is a sequence of entries in document order.
   */
  datatype FeedResponse = FeedResponse(
    repositoryDiscussionsCategoryUrl: string,
    repositoryDiscussionsUrl: string,
    securityAdvisoriesUrl: string,
    timelineUrl: string,
    userUrl: string,
    links: seq<CatalogLink>)

  /** A map never holds one key twice. */
  ghost predicate KeysDistinct(links: seq<CatalogLink>) {
    forall i, j :: 0 <= i < j < |links| ==> links[i].key != links[j].key
  }

  datatype ErrorType = NotFound | Unknown

  /**
   The result handed from the repository to the view models. An `Error` may
   carry data (the source's optional `data` parameter defaulting to null).
   */
  datatype Resource<T> = Success(data: T) | Error(errorType: ErrorType, errorData: Option<T>)

  /** A feed with its store-assigned key cleared, for comparing contents. */
  function FeedContents(f: Feed): Feed {
    f.(id := 0)
  }

  /** An entry with its store-assigned key cleared, for comparing contents. */
  function EntryContents(e: Entry): Entry {
    e.(id := 0)
  }

  /** Two feed lists that agree everywhere except in the store-assigned ids. */
  ghost predicate SameFeedsUpToId(a: seq<Feed>, b: seq<Feed>) {
    |a| == |b| && forall i :: 0 <= i < |a| ==> FeedContents(a[i]) == FeedContents(b[i])
  }

  /** Two entry lists that agree everywhere except in the store-assigned ids. */
  ghost predicate SameEntriesUpToId(a: seq<Entry>, b: seq<Entry>) {
    |a| == |b| && forall i :: 0 <= i < |a| ==> EntryContents(a[i]) == EntryContents(b[i])
  }
}
