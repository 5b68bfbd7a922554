/**
 What the entry parser computes, stated over element trees instead of
 events: for a `feed` element whose entries hold only plain text fields and
 `alternate` links, parsing its serialisation yields one record per `entry`
 child, in document order, each holding the last value of each field.
 */
module AtomReference {
  import opened Results
  import opened Model
  import opened XmlEvents
  import opened XmlParser

  /** The entry children the parser captures (RFC 4287, sections 4.2.6, 4.2.7, 4.2.9, 4.2.14). */
  const FieldNames: set<string> := {"id", "published", "link", "title"}

  predicate IsElementNamed(n: Node, name: string) {
    n.Element? && n.tag == name
  }

  /** An element whose content is empty or one run of text. */
  predicate IsTextField(n: Node) {
    n.Element? && (n.children == [] || (|n.children| == 1 && n.children[0].Chars?))
  }

  /** An empty `link` element with `rel="alternate"` and an `href`. */
  predicate IsAlternateLink(n: Node) {
    n.Element? && n.children == [] && "rel" in n.attributes && n.attributes["rel"] == "alternate"
    && "href" in n.attributes
  }

  /** A child of `entry` the parser reads without throwing. */
  predicate ReadableEntryChild(n: Node) {
    && (n.Element? && n.tag in FieldNames && n.tag != "link" ==> IsTextField(n))
    && (IsElementNamed(n, "link") ==> IsAlternateLink(n))
  }

  predicate ReadableEntry(n: Node) {
    IsElementNamed(n, "entry") && forall i :: 0 <= i < |n.children| ==> ReadableEntryChild(n.children[i])
  }

  /** A child of `feed` the parser reads without throwing: anything but an unreadable entry. */
  predicate ReadableFeedChild(n: Node) {
    IsElementNamed(n, "entry") ==> ReadableEntry(n)
  }

  /** A `feed` element every `entry` child of which is readable. */
  predicate ReadableFeed(n: Node) {
    IsElementNamed(n, "feed") && forall i :: 0 <= i < |n.children| ==> ReadableFeedChild(n.children[i])
  }

  /** The text of a text field: `""` when the element is empty. */
  function TextContent(n: Node): string
    requires n.Element?
  {
    if |n.children| == 1 && n.children[0].Chars? then n.children[0].chars else ""
  }

  /** The value a captured child contributes: `href` for a link, the text otherwise. */
  function Captured(n: Node): string
    requires ReadableEntryChild(n) && n.Element? && n.tag in FieldNames
  {
    if n.tag == "link" then n.attributes["href"] else TextContent(n)
  }

  function Field(e: EntryResponse, name: string): Option<string>
    requires name in FieldNames
  {
    if name == "id" then e.id
    else if name == "published" then e.published
    else if name == "link" then e.link
    else e.title
  }

  function SetField(e: EntryResponse, name: string, v: string): (r: EntryResponse)
    requires name in FieldNames
    ensures Field(r, name) == Some(v)
    ensures forall other :: other in FieldNames && other != name ==> Field(r, other) == Field(e, other)
    ensures r.media == e.media && r.author == e.author && r.content == e.content
  {
    if name == "id" then e.(id := Some(v))
    else if name == "published" then e.(published := Some(v))
    else if name == "link" then e.(link := Some(v))
    else e.(title := Some(v))
  }

  /** The effect of one entry child on the record being built. */
  function Capture(acc: EntryResponse, n: Node): EntryResponse
    requires ReadableEntryChild(n)
  {
    if n.Element? && n.tag in FieldNames then SetField(acc, n.tag, Captured(n)) else acc
  }

  /** The record built from `cs`, child by child, starting from `acc`. */
  function CollectFields(cs: seq<Node>, acc: EntryResponse): EntryResponse
    requires forall i :: 0 <= i < |cs| ==> ReadableEntryChild(cs[i])
  {
    if cs == [] then acc else CollectFields(cs[1..], Capture(acc, cs[0]))
  }

  /** The record of one `entry` element. */
  function EntryOf(n: Node): EntryResponse
    requires ReadableEntry(n)
  {
    CollectFields(n.children, NoFields)
  }

  /** The records of the `entry` elements among `cs`, in order; other nodes add nothing. */
  function EntriesOf(cs: seq<Node>): seq<EntryResponse>
    requires forall i :: 0 <= i < |cs| ==> ReadableFeedChild(cs[i])
  {
    if cs == [] then [] else RecordsOf(cs[0]) + EntriesOf(cs[1..])
  }

  /** What one child of `feed` contributes: the record of an `entry`, nothing for anything else. */
  function RecordsOf(n: Node): seq<EntryResponse>
    requires ReadableFeedChild(n)
  {
    if IsElementNamed(n, "entry") then [EntryOf(n)] else []
  }

  /** How many of `cs` are `entry` elements. */
  function EntryCount(cs: seq<Node>): nat {
    if cs == [] then 0 else (if IsElementNamed(cs[0], "entry") then 1 else 0) + EntryCount(cs[1..])
  }

  // ---------------------------------------------------------------------------
  // Locating serialised nodes inside a document

  lemma AtSplit(doc: Doc, i: nat, a: seq<Event>, b: seq<Event>)
    requires At(doc, i, a + b)
    ensures At(doc, i, a) && At(doc, i + |a|, b)
  {
    forall k | 0 <= k < |a| ensures doc[i + k] == a[k] {
      assert (a + b)[k] == a[k];
    }
    forall k | 0 <= k < |b| ensures doc[i + |a| + k] == b[k] {
      assert (a + b)[|a| + k] == b[k];
    }
  }

  /** The events of siblings: the first node's, then the others'. */
  lemma AtCons(doc: Doc, i: nat, cs: seq<Node>)
    requires cs != [] && At(doc, i, EventsSeq(cs))
    ensures |EventsSeq(cs)| == |Events(cs[0])| + |EventsSeq(cs[1..])|
    ensures At(doc, i, Events(cs[0])) && At(doc, i + |Events(cs[0])|, EventsSeq(cs[1..]))
  {
    AtSplit(doc, i, Events(cs[0]), EventsSeq(cs[1..]));
  }

  /** The events of siblings: those of the first `k`, then those of the others. */
  lemma AtPrefix(doc: Doc, i: nat, cs: seq<Node>, k: nat)
    requires k <= |cs| && At(doc, i, EventsSeq(cs))
    ensures |EventsSeq(cs)| == |EventsSeq(cs[..k])| + |EventsSeq(cs[k..])|
    ensures At(doc, i, EventsSeq(cs[..k])) && At(doc, i + |EventsSeq(cs[..k])|, EventsSeq(cs[k..]))
  {
    assert cs == cs[..k] + cs[k..];
    EventsSeqAppend(cs[..k], cs[k..]);
    AtSplit(doc, i, EventsSeq(cs[..k]), EventsSeq(cs[k..]));
  }

  lemma {:induction false} EventsSeqAppend(a: seq<Node>, b: seq<Node>)
    ensures EventsSeq(a + b) == EventsSeq(a) + EventsSeq(b)
  {
    if a == [] {
      assert a + b == b;
    } else {
      assert (a + b)[1..] == a[1..] + b;
      EventsSeqAppend(a[1..], b);
    }
  }

  lemma AtElement(doc: Doc, i: nat, n: Node)
    requires n.Element? && At(doc, i, Events(n))
    ensures |Events(n)| == |EventsSeq(n.children)| + 2
    ensures doc[i] == Start(n.tag, n.attributes)
    ensures At(doc, i + 1, EventsSeq(n.children))
    ensures doc[i + 1 + |EventsSeq(n.children)|] == End(n.tag)
  {
    var inner := EventsSeq(n.children);
    var evs := Events(n);
    assert evs == [Start(n.tag, n.attributes)] + inner + [End(n.tag)];
    assert doc[i + 0] == evs[0];
    assert doc[i + (|inner| + 1)] == evs[|inner| + 1];
    forall k | 0 <= k < |inner| ensures doc[i + 1 + k] == inner[k] {
      assert evs[k + 1] == inner[k];
      assert doc[i + (k + 1)] == evs[k + 1];
    }
  }

  // ---------------------------------------------------------------------------
  // skip

  /** One step of the skip loop: the event read moves the depth by its `Delta`. */
  lemma SkipStep(doc: Doc, cur: nat, depth: nat)
    requires depth > 0 && cur + 1 < |doc| && depth + Delta(doc[cur + 1]) > 0
    ensures SkipDepth(doc, cur, depth) == SkipDepth(doc, cur + 1, depth + Delta(doc[cur + 1]))
  {
  }

  /** Inside an open element, the skip loop passes over whole sibling subtrees. */
  lemma {:induction false} SkipChildren(doc: Doc, cur: nat, depth: nat, cs: seq<Node>)
    requires depth > 0
    requires At(doc, cur + 1, EventsSeq(cs)) && cur + |EventsSeq(cs)| < |doc|
    ensures SkipDepth(doc, cur, depth) == SkipDepth(doc, cur + |EventsSeq(cs)|, depth)
    decreases |EventsSeq(cs)|, 1
  {
    if cs != [] {
      AtSplit(doc, cur + 1, Events(cs[0]), EventsSeq(cs[1..]));
      SkipNode(doc, cur, depth, cs[0]);
      SkipChildren(doc, cur + |Events(cs[0])|, depth, cs[1..]);
    }
  }

  /** Inside an open element, the skip loop passes over one whole subtree. */
  lemma {:induction false} SkipNode(doc: Doc, cur: nat, depth: nat, n: Node)
    requires depth > 0
    requires At(doc, cur + 1, Events(n)) && cur + |Events(n)| < |doc|
    ensures SkipDepth(doc, cur, depth) == SkipDepth(doc, cur + |Events(n)|, depth)
    decreases |Events(n)|, 0
  {
    match n {
      case Chars(t) =>
        assert Events(n) == [Text(t)];
        assert doc[cur + 1 + 0] == Events(n)[0];
        SkipStep(doc, cur, depth);
      case Element(tag, attrs, ch) =>
        AtElement(doc, cur + 1, n);
        var close := cur + 1 + |EventsSeq(ch)|;
        SkipStep(doc, cur, depth);
        SkipChildren(doc, cur + 1, depth + 1, ch);
        SkipStep(doc, close, depth + 1);
    }
  }

  /** `skip` on the start tag of an element stops on that element's own end tag. */
  lemma SkipElement(doc: Doc, i: nat, n: Node)
    requires n.Element? && At(doc, i, Events(n))
    ensures Skip(doc, i) == Ok(i + |Events(n)| - 1)
  {
    AtElement(doc, i, n);
    SkipChildren(doc, i, 1, n.children);
  }

  // ---------------------------------------------------------------------------
  // Fields, entries and the feed

  lemma ReadTextField(doc: Doc, i: nat, n: Node)
    requires IsTextField(n) && At(doc, i, Events(n))
    ensures ReadField(doc, i, n.tag) == Ok((TextContent(n), i + |Events(n)| - 1))
  {
    AtElement(doc, i, n);
    if n.children != [] {
      var t := n.children[0].chars;
      assert Events(n.children[0]) == [Text(t)];
      assert EventsSeq(n.children) == [Text(t)];
      assert doc[i + 1 + 0] == EventsSeq(n.children)[0];
    }
  }

  lemma ReadAlternateLink(doc: Doc, i: nat, n: Node)
    requires IsElementNamed(n, "link") && IsAlternateLink(n) && At(doc, i, Events(n))
    ensures ReadLink(doc, i) == Ok((n.attributes["href"], i + |Events(n)| - 1))
  {
    AtElement(doc, i, n);
  }

  /** One child of `entry`: a field is captured, anything else is passed over. */
  lemma EntryChild(doc: Doc, cur: nat, acc: EntryResponse, n: Node)
    requires ReadableEntryChild(n)
    requires At(doc, cur + 1, Events(n)) && cur + |Events(n)| < |doc|
    ensures EntryFields(doc, cur, acc) == EntryFields(doc, cur + |Events(n)|, Capture(acc, n))
  {
    match n {
      case Chars(t) =>
        assert Events(n) == [Text(t)];
        assert doc[cur + 1 + 0] == Events(n)[0];
      case Element(tag, attrs, ch) =>
        if tag in FieldNames {
          EntryFieldChild(doc, cur, acc, n);
        } else {
          EntryOtherChild(doc, cur, acc, n);
        }
    }
  }

  lemma EntryFieldChild(doc: Doc, cur: nat, acc: EntryResponse, n: Node)
    requires ReadableEntryChild(n) && n.Element? && n.tag in FieldNames
    requires At(doc, cur + 1, Events(n)) && cur + |Events(n)| < |doc|
    ensures EntryFields(doc, cur, acc) == EntryFields(doc, cur + |Events(n)|, SetField(acc, n.tag, Captured(n)))
  {
    AtElement(doc, cur + 1, n);
    if n.tag == "link" {
      ReadAlternateLink(doc, cur + 1, n);
    } else {
      ReadTextField(doc, cur + 1, n);
    }
  }

  lemma EntryOtherChild(doc: Doc, cur: nat, acc: EntryResponse, n: Node)
    requires n.Element? && n.tag !in FieldNames
    requires At(doc, cur + 1, Events(n)) && cur + |Events(n)| < |doc|
    ensures EntryFields(doc, cur, acc) == EntryFields(doc, cur + |Events(n)|, acc)
  {
    AtElement(doc, cur + 1, n);
    SkipElement(doc, cur + 1, n);
  }

  /** The first step of the `readEntry` loop over serialised siblings. */
  lemma EntryFirstChild(doc: Doc, cur: nat, acc: EntryResponse, cs: seq<Node>)
    requires cs != [] && ReadableEntryChild(cs[0])
    requires At(doc, cur + 1, EventsSeq(cs)) && cur + |EventsSeq(cs)| < |doc|
    ensures var mid := cur + |Events(cs[0])|;
      && At(doc, mid + 1, EventsSeq(cs[1..])) && mid + |EventsSeq(cs[1..])| == cur + |EventsSeq(cs)|
      && EntryFields(doc, cur, acc) == EntryFields(doc, mid, Capture(acc, cs[0]))
  {
    AtSplit(doc, cur + 1, Events(cs[0]), EventsSeq(cs[1..]));
    EntryChild(doc, cur, acc, cs[0]);
  }

  /** The `readEntry` loop over the serialised children folds `Capture` over them. */
  lemma {:induction false} EntryChildren(doc: Doc, cur: nat, acc: EntryResponse, cs: seq<Node>)
    requires forall j :: 0 <= j < |cs| ==> ReadableEntryChild(cs[j])
    requires At(doc, cur + 1, EventsSeq(cs)) && cur + |EventsSeq(cs)| < |doc|
    ensures EntryFields(doc, cur, acc) == EntryFields(doc, cur + |EventsSeq(cs)|, CollectFields(cs, acc))
    decreases |cs|
  {
    if cs == [] {
      assert EventsSeq(cs) == [] && CollectFields(cs, acc) == acc;
    } else {
      var mid, next := cur + |Events(cs[0])|, Capture(acc, cs[0]);
      EntryFirstChild(doc, cur, acc, cs);
      EntryChildren(doc, mid, next, cs[1..]);
      assert mid + |EventsSeq(cs[1..])| == cur + |EventsSeq(cs)|;
      assert CollectFields(cs[1..], next) == CollectFields(cs, acc);
    }
  }

  lemma ReadEntryElement(doc: Doc, i: nat, n: Node)
    requires ReadableEntry(n) && At(doc, i, Events(n))
    ensures ReadEntry(doc, i) == Ok((EntryOf(n), i + |Events(n)| - 1))
  {
    AtElement(doc, i, n);
    EntryChildren(doc, i, NoFields, n.children);
  }

  /** One child of `feed`: an entry is read, anything else is passed over. */
  lemma FeedChild(doc: Doc, cur: nat, acc: seq<EntryResponse>, n: Node)
    requires ReadableFeedChild(n)
    requires At(doc, cur + 1, Events(n)) && cur + |Events(n)| < |doc|
    ensures FeedEntries(doc, cur, acc)
         == FeedEntries(doc, cur + |Events(n)|, acc + RecordsOf(n))
  {
    match n {
      case Chars(t) =>
        assert Events(n) == [Text(t)];
        assert doc[cur + 1 + 0] == Events(n)[0];
        assert RecordsOf(n) == [] && acc + [] == acc;
        assert Next(doc, cur) == Ok(cur + 1);
      case Element(tag, attrs, ch) =>
        AtElement(doc, cur + 1, n);
        if tag == "entry" {
          ReadEntryElement(doc, cur + 1, n);
        } else {
          SkipElement(doc, cur + 1, n);
          assert acc + [] == acc;
        }
    }
  }

  /** The first step of the `readFeed` loop over serialised siblings. */
  lemma FeedFirstChild(doc: Doc, cur: nat, acc: seq<EntryResponse>, cs: seq<Node>)
    requires cs != [] && ReadableFeedChild(cs[0])
    requires At(doc, cur + 1, EventsSeq(cs)) && cur + |EventsSeq(cs)| < |doc|
    ensures var mid := cur + |Events(cs[0])|;
      && At(doc, mid + 1, EventsSeq(cs[1..])) && mid + |EventsSeq(cs[1..])| == cur + |EventsSeq(cs)|
      && FeedEntries(doc, cur, acc) == FeedEntries(doc, mid, acc + RecordsOf(cs[0]))
  {
    AtSplit(doc, cur + 1, Events(cs[0]), EventsSeq(cs[1..]));
    FeedChild(doc, cur, acc, cs[0]);
  }

  /** Appending the records of siblings one child at a time. */
  lemma AppendEntries(acc: seq<EntryResponse>, cs: seq<Node>)
    requires cs != [] && forall j :: 0 <= j < |cs| ==> ReadableFeedChild(cs[j])
    ensures acc + RecordsOf(cs[0]) + EntriesOf(cs[1..]) == acc + EntriesOf(cs)
  {
    EntriesOfFirst(cs);
    AppendAssoc(acc, RecordsOf(cs[0]), EntriesOf(cs[1..]));
  }

  lemma EntriesOfFirst(cs: seq<Node>)
    requires cs != [] && forall j :: 0 <= j < |cs| ==> ReadableFeedChild(cs[j])
    ensures EntriesOf(cs) == RecordsOf(cs[0]) + EntriesOf(cs[1..])
  {
  }

  lemma AppendAssoc(a: seq<EntryResponse>, b: seq<EntryResponse>, c: seq<EntryResponse>)
    ensures a + b + c == a + (b + c)
  {
  }

  /** The `readFeed` loop over the serialised children appends `EntriesOf` them. */
  lemma {:induction false} FeedChildren(doc: Doc, cur: nat, acc: seq<EntryResponse>, cs: seq<Node>)
    requires forall j :: 0 <= j < |cs| ==> ReadableFeedChild(cs[j])
    requires At(doc, cur + 1, EventsSeq(cs)) && cur + |EventsSeq(cs)| < |doc|
    ensures FeedEntries(doc, cur, acc) == FeedEntries(doc, cur + |EventsSeq(cs)|, acc + EntriesOf(cs))
    decreases |cs|
  {
    if cs == [] {
      assert EventsSeq(cs) == [] && acc + EntriesOf(cs) == acc;
    } else {
      var mid, next := cur + |Events(cs[0])|, acc + RecordsOf(cs[0]);
      FeedFirstChild(doc, cur, acc, cs);
      FeedChildren(doc, mid, next, cs[1..]);
      AppendEntries(acc, cs);
      assert mid + |EventsSeq(cs[1..])| == cur + |EventsSeq(cs)|;
      assert next + EntriesOf(cs[1..]) == acc + EntriesOf(cs);
    }
  }

  /** A sequence of events opens with each of its prefixes. */
  lemma AtFront(a: seq<Event>, b: seq<Event>)
    ensures At(a + b, 0, a)
  {
    forall k | 0 <= k < |a| ensures (a + b)[0 + k] == a[k] {
    }
  }

  /** A document opening with a `feed` element: its first tag is the root's start tag, followed by its children. */
  lemma DocumentOf(doc: Doc, feed: Node)
    requires IsElementNamed(feed, "feed") && At(doc, 0, Events(feed))
    ensures FirstTag(doc) == Ok(0) && IsTagOf(doc[0], StartTag, "feed")
    ensures At(doc, 1, EventsSeq(feed.children)) && |EventsSeq(feed.children)| + 1 < |doc|
    ensures doc[1 + |EventsSeq(feed.children)|] == End("feed")
  {
    AtElement(doc, 0, feed);
  }

  /**
   The parse theorem: a readable `feed` document, followed by anything,
   parses to the records of its `entry` children in document order.
   */
  lemma ParseFeedDocument(feed: Node, rest: seq<Event>)
    requires ReadableFeed(feed)
    ensures Parse(Events(feed) + rest) == Ok(EntriesOf(feed.children))
    ensures |EntriesOf(feed.children)| == EntryCount(feed.children)
  {
    AtFront(Events(feed), rest);
    DocumentOf(Events(feed) + rest, feed);
    ParseFeedChildren(Events(feed) + rest, feed.children);
    EntriesCounted(feed.children);
  }

  /** Once the root start tag is found, `invoke` returns what the `readFeed` loop reads. */
  lemma ParseIsFeedLoop(doc: Doc)
    requires FirstTag(doc) == Ok(0) && IsTagOf(doc[0], StartTag, "feed")
    ensures FeedEntries(doc, 0, []).Fail? ==> Parse(doc).Fail?
    ensures FeedEntries(doc, 0, []).Ok? ==> Parse(doc) == Ok(FeedEntries(doc, 0, []).value.0)
  {
    assert Require(doc, 0, StartTag, "feed").Ok?;
  }

  /** A document opening with `feed` whose serialised children are followed by an end tag. */
  lemma ParseFeedChildren(doc: Doc, cs: seq<Node>)
    requires FirstTag(doc) == Ok(0) && IsTagOf(doc[0], StartTag, "feed")
    requires forall j :: 0 <= j < |cs| ==> ReadableFeedChild(cs[j])
    requires At(doc, 1, EventsSeq(cs)) && |EventsSeq(cs)| + 1 < |doc| && doc[1 + |EventsSeq(cs)|].End?
    ensures Parse(doc) == Ok(EntriesOf(cs))
  {
    FeedChildren(doc, 0, [], cs);
    assert [] + EntriesOf(cs) == EntriesOf(cs);
    FeedLoopEnds(doc, |EventsSeq(cs)|, EntriesOf(cs));
    ParseIsFeedLoop(doc);
  }

  /** The `readFeed` loop stops at the end tag that follows the cursor. */
  lemma FeedLoopEnds(doc: Doc, cur: nat, acc: seq<EntryResponse>)
    requires cur + 1 < |doc| && doc[cur + 1].End?
    ensures FeedEntries(doc, cur, acc) == Ok((acc, cur + 1))
  {
  }

  lemma {:induction false} EntriesCounted(cs: seq<Node>)
    requires forall j :: 0 <= j < |cs| ==> ReadableFeedChild(cs[j])
    ensures |EntriesOf(cs)| == EntryCount(cs)
  {
    if cs != [] {
      EntriesCounted(cs[1..]);
    }
  }

  // ---------------------------------------------------------------------------
  // A link that is not `alternate`

  /** A `link` element whose `rel` is missing or anything but `alternate`. */
  predicate IsOtherLink(n: Node) {
    IsElementNamed(n, "link") && !("rel" in n.attributes && n.attributes["rel"] == "alternate")
  }

  /** An `entry` whose children before the `j`-th are readable and whose `j`-th is such a link. */
  predicate EntryWithOtherLink(n: Node, j: nat) {
    IsElementNamed(n, "entry") && j < |n.children| && IsOtherLink(n.children[j])
    && forall i :: 0 <= i < j ==> ReadableEntryChild(n.children[i])
  }

  /** The `readEntry` loop throws when the next child is a link that is not `alternate`. */
  lemma EntryFailsOnOtherLink(doc: Doc, cur: nat, acc: EntryResponse, n: Node)
    requires IsOtherLink(n) && At(doc, cur + 1, Events(n)) && cur + |Events(n)| < |doc|
    ensures EntryFields(doc, cur, acc).Fail?
  {
    AtElement(doc, cur + 1, n);
    assert ReadLink(doc, cur + 1).Fail?;
  }

  /** The `readEntry` loop throws once it reaches a link that is not `alternate`. */
  lemma EntryFailsAtOtherLink(doc: Doc, cur: nat, acc: EntryResponse, cs: seq<Node>, j: nat)
    requires j < |cs| && IsOtherLink(cs[j])
    requires forall i :: 0 <= i < j ==> ReadableEntryChild(cs[i])
    requires At(doc, cur + 1, EventsSeq(cs)) && cur + |EventsSeq(cs)| < |doc|
    ensures EntryFields(doc, cur, acc).Fail?
  {
    AtPrefix(doc, cur + 1, cs, j);
    AtCons(doc, cur + 1 + |EventsSeq(cs[..j])|, cs[j..]);
    EntryChildren(doc, cur, acc, cs[..j]);
    EntryFailsOnOtherLink(doc, cur + |EventsSeq(cs[..j])|, CollectFields(cs[..j], acc), cs[j]);
  }

  /** The `readFeed` loop throws when the next child is an entry with such a link. */
  lemma FeedFailsOnEntry(doc: Doc, cur: nat, acc: seq<EntryResponse>, n: Node, j: nat)
    requires EntryWithOtherLink(n, j) && At(doc, cur + 1, Events(n)) && cur + |Events(n)| < |doc|
    ensures FeedEntries(doc, cur, acc).Fail?
  {
    AtElement(doc, cur + 1, n);
    EntryFailsAtOtherLink(doc, cur + 1, NoFields, n.children, j);
    assert ReadEntry(doc, cur + 1).Fail?;
  }

  /** The `readFeed` loop throws once it reaches such an entry. */
  lemma FeedFailsAtOtherLink(doc: Doc, cur: nat, acc: seq<EntryResponse>, cs: seq<Node>, k: nat, j: nat)
    requires k < |cs| && EntryWithOtherLink(cs[k], j)
    requires forall i :: 0 <= i < k ==> ReadableFeedChild(cs[i])
    requires At(doc, cur + 1, EventsSeq(cs)) && cur + |EventsSeq(cs)| < |doc|
    ensures FeedEntries(doc, cur, acc).Fail?
  {
    AtPrefix(doc, cur + 1, cs, k);
    AtCons(doc, cur + 1 + |EventsSeq(cs[..k])|, cs[k..]);
    FeedChildren(doc, cur, acc, cs[..k]);
    FeedFailsOnEntry(doc, cur + |EventsSeq(cs[..k])|, acc + EntriesOf(cs[..k]), cs[k], j);
  }

  /**
   A `link` whose `rel` is not literally `alternate`, in any entry, makes the
   whole parse throw: the reader stays on its start tag and the closing
   `require` fails. RFC 4287 section 4.2.7.2 reads a missing `rel` as
   `alternate`; the parser does not.
   */
  lemma OtherLinkFailsParse(feed: Node, rest: seq<Event>, k: nat, j: nat)
    requires IsElementNamed(feed, "feed") && k < |feed.children| && EntryWithOtherLink(feed.children[k], j)
    requires forall i :: 0 <= i < k ==> ReadableFeedChild(feed.children[i])
    ensures Parse(Events(feed) + rest).Fail?
  {
    var doc := Events(feed) + rest;
    AtFront(Events(feed), rest);
    DocumentOf(doc, feed);
    FeedFailsAtOtherLink(doc, 0, [], feed.children, k, j);
    ParseIsFeedLoop(doc);
  }

  // ---------------------------------------------------------------------------
  // Field semantics inside one entry

  /** A field whose element does not occur keeps the value it had (null from the start). */
  lemma {:induction false} AbsentFieldKept(cs: seq<Node>, acc: EntryResponse, name: string)
    requires forall i :: 0 <= i < |cs| ==> ReadableEntryChild(cs[i])
    requires name in FieldNames
    requires forall i :: 0 <= i < |cs| ==> !IsElementNamed(cs[i], name)
    ensures Field(CollectFields(cs, acc), name) == Field(acc, name)
  {
    if cs != [] {
      AbsentFieldKept(cs[1..], Capture(acc, cs[0]), name);
    }
  }

  /** When a field element repeats, the last occurrence wins. */
  lemma {:induction false} LastFieldWins(cs: seq<Node>, acc: EntryResponse, name: string, k: nat)
    requires forall i :: 0 <= i < |cs| ==> ReadableEntryChild(cs[i])
    requires name in FieldNames
    requires k < |cs| && IsElementNamed(cs[k], name)
    requires forall i :: k < i < |cs| ==> !IsElementNamed(cs[i], name)
    ensures Field(CollectFields(cs, acc), name) == Some(Captured(cs[k]))
  {
    if k == 0 {
      AbsentFieldKept(cs[1..], Capture(acc, cs[0]), name);
    } else {
      LastFieldWins(cs[1..], Capture(acc, cs[0]), name, k - 1);
    }
  }
}
