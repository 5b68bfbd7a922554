/**
 The XML input as the pull parser presents it: a pre-tokenised sequence of
 events, and the element trees such sequences serialise.
 */
module XmlEvents {

  /**
   One pull-parser event. Namespace processing is off, so a prefixed name such
   as `media:thumbnail` is just a name; `attrs` maps attribute names to values.
   */
  datatype Event =
    | Start(name: string, attrs: map<string, string>)
    | End(name: string)
    | Text(text: string)
    | EndDoc

  type Doc = seq<Event>

  predicate IsTag(e: Event) {
    e.Start? || e.End?
  }

  /** The four characters XML counts as white space. */
  predicate IsXmlSpace(c: char) {
    c == ' ' || c == '\t' || c == '\n' || c == '\r'
  }

  /** Text the pull parser reports as `isWhitespace()`. */
  predicate IsWhitespaceText(s: string) {
    forall i :: 0 <= i < |s| ==> IsXmlSpace(s[i])
  }

  /** The start-minus-end balance one event contributes. */
  function Delta(e: Event): int {
    match e
    case Start(_, _) => 1
    case End(_) => -1
    case _ => 0
  }

  /** Tags opened minus tags closed among `doc[lo..hi]`. */
  function Nesting(doc: Doc, lo: nat, hi: nat): int
    requires lo <= hi <= |doc|
    decreases hi - lo
  {
    if lo == hi then 0 else Delta(doc[lo]) + Nesting(doc, lo + 1, hi)
  }

  /** An element tree: what a well-formed document is made of. */
  datatype Node =
    | Element(tag: string, attributes: map<string, string>, children: seq<Node>)
    | Chars(chars: string)

  /** The events a node serialises to, in document order. */
  function Events(n: Node): seq<Event>
    decreases n
  {
    match n
    case Chars(t) => [Text(t)]
    case Element(tag, attributes, cs) => [Start(tag, attributes)] + EventsSeq(cs) + [End(tag)]
  }

  /** The events of a sequence of sibling nodes. */
  function EventsSeq(cs: seq<Node>): seq<Event>
    decreases cs
  {
    if cs == [] then [] else Events(cs[0]) + EventsSeq(cs[1..])
  }

  /** `evs` occurs in `doc` starting at index `i`. */
  ghost predicate At(doc: Doc, i: nat, evs: seq<Event>) {
    i + |evs| <= |doc| && forall k :: 0 <= k < |evs| ==> doc[i + k] == evs[k]
  }
}
