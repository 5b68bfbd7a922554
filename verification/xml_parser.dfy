/**
 The Atom entry parser: a forward-only walk over pull-parser events that
 requires a `feed` root, collects one `EntryResponse` per `entry` child and
 skips every other subtree by counting depth (RFC 4287, sections 4.1.1 and
 4.1.2).

 A cursor is the index in `doc` of the parser's current event. Every reader
 takes the cursor and returns the value read with the cursor it leaves
 behind, or the exception the parser throws. Asking for the event after the
 last one fails with `UnexpectedEof`, so every walk terminates.
 */
module XmlParser {
  import opened Results
  import opened Model
  import opened XmlEvents

  /** The exceptions a parse can throw. */
  datatype ParseError =
    | UnexpectedEof   // `next()` asked for an event past the end of the input
    | ExpectedTag     // `nextTag()` reached an event that is not a tag
    | RequireFailed   // `require(...)` rejected the current event
    | NotOnStartTag   // `skip` called away from a start tag
    | MissingHref     // a null `href` stored into a non-null string

  /** A value read together with the cursor left behind. */
  type Read<T> = Result<(T, nat), ParseError>

  datatype TagKind = StartTag | EndTag

  /** `next()`: the cursor of the following event. */
  function Next(doc: Doc, cur: nat): (r: Result<nat, ParseError>)
    ensures r.Ok? <==> cur + 1 < |doc|
    ensures r.Ok? ==> r.value == cur + 1
  {
    if cur + 1 < |doc| then Ok(cur + 1) else Fail(UnexpectedEof)
  }

  /**
   The tag `nextTag()` stops on when `next()` would return `doc[i]`: one
   whitespace-only text event is passed over, and anything else that is not
   a tag is an error.
   */
  function TagFrom(doc: Doc, i: nat): (r: Result<nat, ParseError>)
    ensures r.Ok? ==> i <= r.value < |doc| && IsTag(doc[r.value])
    ensures r.Ok? && r.value != i ==> r.value == i + 1 && doc[i].Text? && IsWhitespaceText(doc[i].text)
    ensures i < |doc| && IsTag(doc[i]) ==> r == Ok(i)
  {
    if i >= |doc| then Fail(UnexpectedEof)
    else
      var j := if doc[i].Text? && IsWhitespaceText(doc[i].text) then i + 1 else i;
      if j >= |doc| then Fail(UnexpectedEof)
      else if IsTag(doc[j]) then Ok(j)
      else Fail(ExpectedTag)
  }

  /** `nextTag()` from the cursor. */
  function NextTag(doc: Doc, cur: nat): Result<nat, ParseError> {
    TagFrom(doc, cur + 1)
  }

  /** Whether `e` is a tag of the given kind and name. */
  predicate IsTagOf(e: Event, kind: TagKind, name: string) {
    (if kind == StartTag then e.Start? else e.End?) && e.name == name
  }

  /** `require(kind, null, name)`: fails unless the current event matches. */
  function Require(doc: Doc, cur: nat, kind: TagKind, name: string): (r: Result<(), ParseError>)
    requires cur < |doc|
    ensures r.Ok? <==> IsTagOf(doc[cur], kind, name)
  {
    if IsTagOf(doc[cur], kind, name) then Ok(()) else Fail(RequireFailed)
  }

  /** `getAttributeValue(null, name)`: the attribute, or null. */
  function Attribute(e: Event, name: string): Option<string>
    requires e.Start?
  {
    if name in e.attrs then Some(e.attrs[name]) else None
  }

  /**
   `readText`, with the cursor on a start tag: the text right after the tag
   (then advancing to the next tag), or `""` when the next event is no text.
   */
  function ReadText(doc: Doc, cur: nat): (r: Read<string>)
    requires cur < |doc|
    ensures r.Ok? ==> cur < r.value.1 < |doc|
    ensures r.Ok? && doc[cur + 1].Text? ==> r.value.0 == doc[cur + 1].text && IsTag(doc[r.value.1])
    ensures cur + 1 < |doc| && !doc[cur + 1].Text? ==> r == Ok(("", cur + 1))
  {
    var c :- Next(doc, cur);
    if doc[c].Text? then
      var c' :- NextTag(doc, c);
      Ok((doc[c].text, c'))
    else
      Ok(("", c))
  }

  /**
   `readId`, `readPublished` and `readTitle`, which differ only in the tag
   name: the text of a `name` element, the cursor left on its end tag.
   */
  function ReadField(doc: Doc, cur: nat, name: string): (r: Read<string>)
    requires cur < |doc|
    ensures r.Ok? ==> IsTagOf(doc[cur], StartTag, name)
    ensures r.Ok? ==> cur < r.value.1 < |doc| && IsTagOf(doc[r.value.1], EndTag, name)
    ensures r.Ok? ==> r.value.0 == (if doc[cur + 1].Text? then doc[cur + 1].text else "")
  {
    var _ :- Require(doc, cur, StartTag, name);
    var t :- ReadText(doc, cur);
    var _ :- Require(doc, t.1, EndTag, name);
    Ok(t)
  }

  /**
   `readLink`: the `href` of a `link` whose `rel` is literally `alternate`.
   Any other `rel`, or none, leaves the cursor on the start tag, so the
   closing `require` fails and the whole parse with it.
   */
  function ReadLink(doc: Doc, cur: nat): (r: Read<string>)
    requires cur < |doc|
    ensures r.Ok? ==> IsTagOf(doc[cur], StartTag, "link") && Attribute(doc[cur], "rel") == Some("alternate")
    ensures r.Ok? ==> "href" in doc[cur].attrs && r.value.0 == doc[cur].attrs["href"]
    ensures r.Ok? ==> cur < r.value.1 < |doc| && IsTagOf(doc[r.value.1], EndTag, "link")
    ensures doc[cur].Start? && Attribute(doc[cur], "rel") != Some("alternate") ==> r.Fail?
  {
    var _ :- Require(doc, cur, StartTag, "link");
    var tag := doc[cur].name;
    var rel := Attribute(doc[cur], "rel");
    if tag == "link" && rel == Some("alternate") then
      var href :- if "href" in doc[cur].attrs then Ok(doc[cur].attrs["href"]) else Fail(MissingHref);
      var c :- NextTag(doc, cur);
      var _ :- Require(doc, c, EndTag, "link");
      Ok((href, c))
    else
      // The cursor is still on the start tag, so `require(END_TAG, "link")` throws.
      assert Require(doc, cur, EndTag, "link").Fail?;
      Fail(RequireFailed)
  }

  /**
   `skip`: with the cursor on a start tag, advance to the end tag that closes
   it. The result is the first index at which the tags opened and closed
   since `cur` balance out.
   */
  function Skip(doc: Doc, cur: nat): (r: Result<nat, ParseError>)
    requires cur < |doc|
    ensures !doc[cur].Start? ==> r == Fail(NotOnStartTag)
    ensures r.Ok? ==> doc[cur].Start? && cur < r.value < |doc| && doc[r.value].End?
    ensures r.Ok? ==> Nesting(doc, cur, r.value + 1) == 0
    ensures r.Ok? ==> StaysOpen(doc, cur + 1, r.value, 1)
  {
    if !doc[cur].Start? then Fail(NotOnStartTag) else SkipDepth(doc, cur, 1)
  }

  /** Starting at `depth`, no prefix of `doc[lo..hi]` closes every open tag. */
  ghost predicate StaysOpen(doc: Doc, lo: nat, hi: nat, depth: int)
    requires lo <= hi + 1 <= |doc|
  {
    forall k :: lo <= k <= hi ==> depth + Nesting(doc, lo, k) > 0
  }

  /** The `skip` loop at the given depth, the cursor on the last event read. */
  function SkipDepth(doc: Doc, cur: nat, depth: nat): (r: Result<nat, ParseError>)
    requires cur < |doc| && depth > 0
    decreases |doc| - cur
    ensures r.Ok? ==> cur < r.value < |doc| && doc[r.value].End?
    ensures r.Ok? ==> depth + Nesting(doc, cur + 1, r.value + 1) == 0
    ensures r.Ok? ==> StaysOpen(doc, cur + 1, r.value, depth)
  {
    var c :- Next(doc, cur);
    var d := depth + Delta(doc[c]);
    if d == 0 then Ok(c)
    else
      var r := SkipDepth(doc, c, d);
      assert r.Ok? ==> StaysOpen(doc, cur + 1, r.value, depth) by {
        if r.Ok? {
          forall k | c <= k <= r.value
            ensures depth + Nesting(doc, c, k) > 0
          {
            if k > c {
              assert Nesting(doc, c, k) == Delta(doc[c]) + Nesting(doc, c + 1, k);
            }
          }
        }
      }
      r
  }

  /**
   `readEntry`: the fields of one `entry`, the cursor left on the tag that
   ended it. Only `id`, `published`, `link` and `title` are read; every other
   child element is skipped.
   */
  function ReadEntry(doc: Doc, cur: nat): (r: Read<EntryResponse>)
    requires cur < |doc|
    ensures r.Ok? ==> IsTagOf(doc[cur], StartTag, "entry")
    ensures r.Ok? ==> cur < r.value.1 < |doc| && doc[r.value.1].End?
    ensures r.Ok? ==> r.value.0.media == None && r.value.0.author == None && r.value.0.content == None
  {
    var _ :- Require(doc, cur, StartTag, "entry");
    EntryFields(doc, cur, NoFields)
  }

  /** The loop of `readEntry`: `acc` holds the fields read so far. */
  function EntryFields(doc: Doc, cur: nat, acc: EntryResponse): (r: Read<EntryResponse>)
    requires cur < |doc|
    decreases |doc| - cur
    ensures r.Ok? ==> cur < r.value.1 < |doc| && doc[r.value.1].End?
    ensures r.Ok? ==> r.value.0.media == acc.media && r.value.0.author == acc.author && r.value.0.content == acc.content
  {
    var c :- Next(doc, cur);
    match doc[c]
    case End(_) => Ok((acc, c))
    case Start(_, _) => EntryFieldsAtStart(doc, c, acc)
    case _ => EntryFields(doc, c, acc)
  }

  /** The `readEntry` loop on the start tag of a child: read or skip that child, then go on. */
  function EntryFieldsAtStart(doc: Doc, c: nat, acc: EntryResponse): (r: Read<EntryResponse>)
    requires c < |doc| && doc[c].Start?
    decreases |doc| - c
    ensures r.Ok? ==> c < r.value.1 < |doc| && doc[r.value.1].End?
    ensures r.Ok? ==> r.value.0.media == acc.media && r.value.0.author == acc.author && r.value.0.content == acc.content
  {
    var name := doc[c].name;
    if name == "id" then
      var v :- ReadField(doc, c, "id");
      EntryFields(doc, v.1, acc.(id := Some(v.0)))
    else if name == "published" then
      var v :- ReadField(doc, c, "published");
      EntryFields(doc, v.1, acc.(published := Some(v.0)))
    else if name == "link" then
      var v :- ReadLink(doc, c);
      EntryFields(doc, v.1, acc.(link := Some(v.0)))
    else if name == "title" then
      var v :- ReadField(doc, c, "title");
      EntryFields(doc, v.1, acc.(title := Some(v.0)))
    else
      var c' :- Skip(doc, c);
      EntryFields(doc, c', acc)
  }

  /** `readFeed`: the entries of a `feed` element, the cursor left on its end tag. */
  function ReadFeed(doc: Doc, cur: nat): (r: Read<seq<EntryResponse>>)
    requires cur < |doc|
    ensures r.Ok? ==> IsTagOf(doc[cur], StartTag, "feed")
    ensures r.Ok? ==> cur < r.value.1 < |doc| && doc[r.value.1].End?
    ensures r.Ok? ==> forall e :: e in r.value.0 ==> e.media == None && e.author == None && e.content == None
  {
    var _ :- Require(doc, cur, StartTag, "feed");
    FeedEntries(doc, cur, [])
  }

  /** The loop of `readFeed`: `acc` holds the entries read so far. */
  function FeedEntries(doc: Doc, cur: nat, acc: seq<EntryResponse>): (r: Read<seq<EntryResponse>>)
    requires cur < |doc|
    decreases |doc| - cur
    ensures r.Ok? ==> cur < r.value.1 < |doc| && doc[r.value.1].End?
    ensures r.Ok? ==> |acc| <= |r.value.0| && r.value.0[..|acc|] == acc
    ensures r.Ok? ==> forall i :: |acc| <= i < |r.value.0| ==>
      r.value.0[i].media == None && r.value.0[i].author == None && r.value.0[i].content == None
  {
    var c :- Next(doc, cur);
    match doc[c]
    case End(_) => Ok((acc, c))
    case Start(_, _) => FeedEntriesAtStart(doc, c, acc)
    case _ => FeedEntries(doc, c, acc)
  }

  /** The `readFeed` loop on the start tag of a child: read an entry or skip the child, then go on. */
  function FeedEntriesAtStart(doc: Doc, c: nat, acc: seq<EntryResponse>): (r: Read<seq<EntryResponse>>)
    requires c < |doc| && doc[c].Start?
    decreases |doc| - c
    ensures r.Ok? ==> c < r.value.1 < |doc| && doc[r.value.1].End?
    ensures r.Ok? ==> |acc| <= |r.value.0| && r.value.0[..|acc|] == acc
    ensures r.Ok? ==> forall i :: |acc| <= i < |r.value.0| ==>
      r.value.0[i].media == None && r.value.0[i].author == None && r.value.0[i].content == None
  {
    if doc[c].name == "entry" then
      var e :- ReadEntry(doc, c);
      FeedEntries(doc, e.1, acc + [e.0])
    else
      var c' :- Skip(doc, c);
      FeedEntries(doc, c', acc)
  }

  /** The first tag of the document: where `nextTag()` stops from the document start. */
  function FirstTag(doc: Doc): Result<nat, ParseError> {
    TagFrom(doc, 0)
  }

  /**
   The parser's `invoke`: the entries of the document, which must open with
   a `feed` start tag (after at most one whitespace text).
   */
  function Parse(doc: Doc): (r: Result<seq<EntryResponse>, ParseError>)
    ensures r.Ok? ==> FirstTag(doc).Ok? && IsTagOf(doc[FirstTag(doc).value], StartTag, "feed")
    ensures FirstTag(doc).Ok? && !IsTagOf(doc[FirstTag(doc).value], StartTag, "feed") ==> r == Fail(RequireFailed)
    ensures r.Ok? ==> forall e :: e in r.value ==> e.media == None && e.author == None && e.content == None
  {
    var c :- FirstTag(doc);
    var feed :- ReadFeed(doc, c);
    Ok(feed.0)
  }
}
