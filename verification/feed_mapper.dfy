/** `Map.Entry<String, LinkResponse>.toFeed()` and its use over the whole catalog. */
module FeedMapper {
  import opened Model

  /** One catalog entry as a stored feed row: the map key, the link's `href`, no id yet. */
  function ToFeed(link: CatalogLink): (f: Feed)
    ensures f.id == 0 && f.key == link.key && f.link == link.value.href
  {
    Feed(0, link.key, link.value.href)
  }

  /** `body.links.forEach { add(it.toFeed()) }`: one feed per catalog entry, in catalog order. */
  function ToFeeds(links: seq<CatalogLink>): (fs: seq<Feed>)
    ensures |fs| == |links|
    ensures forall i :: 0 <= i < |links| ==> fs[i] == ToFeed(links[i])
  {
    if links == [] then [] else [ToFeed(links[0])] + ToFeeds(links[1..])
  }

  /** Feeds one per key: the catalog's distinct keys stay distinct after mapping. */
  ghost predicate FeedKeysDistinct(fs: seq<Feed>) {
    forall i, j :: 0 <= i < j < |fs| ==> fs[i].key != fs[j].key
  }

  lemma ToFeedsKeysDistinct(links: seq<CatalogLink>)
    ensures KeysDistinct(links) <==> FeedKeysDistinct(ToFeeds(links))
  {
  }

  /** Every catalog key, and only those, names a mapped feed, with that entry's `href`. */
  lemma ToFeedsCoversCatalog(links: seq<CatalogLink>, key: string, href: string)
    ensures (exists f :: f in ToFeeds(links) && f.key == key && f.link == href)
        <==> CatalogLink(key, LinkResponse(href)) in links
  {
    var fs := ToFeeds(links);
    if l :| l in links && l == CatalogLink(key, LinkResponse(href)) {
      var i :| 0 <= i < |links| && links[i] == l;
      assert fs[i] in fs;
    }
    if f :| f in fs && f.key == key && f.link == href {
      var i :| 0 <= i < |fs| && fs[i] == f;
      assert links[i] == CatalogLink(key, LinkResponse(href));
    }
  }
}
