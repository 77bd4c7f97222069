/** RSSFeedXmlParser: a pull-event walker that collects the `title` and
    `link` of every `item` directly inside the feed's channel into an
    insertion-ordered map. The XML tokeniser is left out: its output is the
    token list below, in which text is already coalesced, comments are gone,
    and `Malformed` marks the point where it rejects the document. */
module RssFeedParser {
  import opened Results
  import opened LinkedMap

  /** What the tokeniser yields for the document after its prolog. */
  datatype Token = Start(name: string) | End(name: string) | Chars(text: string) | Malformed

  /** The event a pull parser is positioned on. */
  datatype Event = StartDocument | StartTag(name: string) | EndTag(name: string) | Text(text: string) | EndDocument

  /** The exceptions of the walk. */
  datatype XmlFault =
    | XmlError       // XmlPullParserException: malformed input, failed require or nextTag
    | IllegalState   // IllegalStateException from skip
    | PastEnd        // next() called at END_DOCUMENT
    | ReadError      // IOException: the stream was already closed

  /** The parser: the current event and the tokens not yet read. */
  datatype Cursor = Cursor(event: Event, rest: seq<Token>)

  /** How many more events the parser can move to. */
  function Remaining(p: Cursor): nat {
    |p.rest| + (if p.event == EndDocument then 0 else 1)
  }

  /** `next()`: the event of the next token, END_DOCUMENT once the tokens are
      used up; there is nothing after END_DOCUMENT. */
  function Next(p: Cursor): (r: Result<Cursor, XmlFault>)
    ensures r.Ok? ==> Remaining(r.value) < Remaining(p) && r.value.event != StartDocument
    ensures p.event == EndDocument ==> r == Err(PastEnd)
    ensures r.Err? ==> r.error in {XmlError, PastEnd}
  {
    if p.event == EndDocument then Err(PastEnd)
    else if |p.rest| == 0 then Ok(Cursor(EndDocument, []))
    else match p.rest[0]
      case Start(n) => Ok(Cursor(StartTag(n), p.rest[1..]))
      case End(n) => Ok(Cursor(EndTag(n), p.rest[1..]))
      case Chars(s) => Ok(Cursor(Text(s), p.rest[1..]))
      case Malformed => Err(XmlError)
  }

  /** White space as the XML grammar's S production defines it. */
  predicate IsWhitespace(s: string) {
    forall k :: 0 <= k < |s| ==> s[k] in {' ', '\t', '\n', '\r'}
  }

  /** `nextTag()`: the next event, skipping one white-space text event, which
      must be a start or an end tag. */
  function NextTag(p: Cursor): (r: Result<Cursor, XmlFault>)
    ensures r.Ok? ==> (r.value.event.StartTag? || r.value.event.EndTag?) && Remaining(r.value) < Remaining(p)
    ensures r.Err? ==> r.error in {XmlError, PastEnd}
  {
    var p1 :- Next(p);
    var p2 :- if p1.event.Text? && IsWhitespace(p1.event.text) then Next(p1) else Ok(p1);
    if p2.event.StartTag? || p2.event.EndTag? then Ok(p2) else Err(XmlError)
  }

  /** `require(type, null, name)`: the parser must be on exactly that tag. */
  function Require(p: Cursor, expected: Event): (r: Result<Cursor, XmlFault>)
    ensures r.Ok? <==> p.event == expected
    ensures r.Ok? ==> r.value == p
    ensures r.Err? ==> r.error == XmlError
  {
    if p.event == expected then Ok(p) else Err(XmlError)
  }

  /** `readText`: the text of the next event when it is TEXT (the parser then
      moves on to the following tag), otherwise "" with the parser left on
      that next event. */
  function ReadText(p: Cursor): (r: Result<(string, Cursor), XmlFault>)
    ensures r.Ok? ==> Remaining(r.value.1) < Remaining(p)
    ensures r.Ok? && Next(p).Ok? && !Next(p).value.event.Text? ==> r.value == ("", Next(p).value)
    ensures r.Ok? && Next(p).Ok? && Next(p).value.event.Text? ==>
      r.value.0 == Next(p).value.event.text && Some(r.value.1) == ResultValue(NextTag(Next(p).value))
    ensures r.Err? ==> r.error in {XmlError, PastEnd}
  {
    var p1 :- Next(p);
    if p1.event.Text? then
      var p2 :- NextTag(p1);
      Ok((p1.event.text, p2))
    else Ok(("", p1))
  }

  function ResultValue<T, E>(r: Result<T, E>): Option<T> {
    if r.Ok? then Some(r.value) else None
  }

  /** `readTitle` and `readLink`, which differ only in the tag: the start
      tag, its text, and the matching end tag, on which the parser is left. */
  function ReadTextElement(p: Cursor, tag: string): (r: Result<(string, Cursor), XmlFault>)
    ensures p.event != StartTag(tag) ==> r == Err(XmlError)
    ensures r.Ok? ==> r.value.1.event == EndTag(tag) && Remaining(r.value.1) < Remaining(p)
    ensures r.Ok? ==> ReadText(p) == Ok(r.value)
    ensures r.Err? ==> r.error in {XmlError, PastEnd}
  {
    var _ :- Require(p, StartTag(tag));
    var (text, p1) :- ReadText(p);
    var _ :- Require(p1, EndTag(tag));
    Ok((text, p1))
  }

  // ---------------------------------------------------------------------
  // skip

  /** One token's contribution to the element depth. */
  function Weight(t: Token): int {
    match t
    case Start(_) => 1
    case End(_) => -1
    case _ => 0
  }

  /** Start tags minus end tags in `ts`. */
  function Balance(ts: seq<Token>): int {
    if |ts| == 0 then 0 else Weight(ts[0]) + Balance(ts[1..])
  }

  /** The loop of `skip` with the depth it has reached; the depth is at least
      one whenever the loop body runs. */
  function SkipLoop(p: Cursor, depth: nat): (r: Result<Cursor, XmlFault>)
    requires depth >= 1
    ensures r.Ok? ==> r.value.event.EndTag? && Remaining(r.value) < Remaining(p)
    ensures r.Err? ==> r.error in {XmlError, PastEnd}
    decreases Remaining(p)
  {
    var p1 :- Next(p);
    if p1.event.EndTag? then (if depth == 1 then Ok(p1) else SkipLoop(p1, depth - 1))
    else if p1.event.StartTag? then SkipLoop(p1, depth + 1)
    else SkipLoop(p1, depth)
  }

  /** `skip`: only from a start tag; moves to the end tag that closes it. */
  function Skip(p: Cursor): (r: Result<Cursor, XmlFault>)
    ensures !p.event.StartTag? ==> r == Err(IllegalState)
    ensures p.event.StartTag? ==> r == SkipLoop(p, 1)
  {
    if !p.event.StartTag? then Err(IllegalState) else SkipLoop(p, 1)
  }

  /** The skip loop stops on the first token that brings the depth to zero:
      every shorter prefix of the tokens it reads leaves the depth positive,
      and it reads nothing beyond that end tag. */
  lemma BalancePrefix(ts: seq<Token>, j: nat)
    requires 1 <= j <= |ts|
    ensures Balance(ts[..j]) == Weight(ts[0]) + Balance(ts[1..][..j - 1])
  {
    assert ts[..j][1..] == ts[1..][..j - 1];
  }

  lemma {:induction false} SkipLoopStopsAtMatchingEnd(p: Cursor, depth: nat)
    requires depth >= 1 && SkipLoop(p, depth).Ok?
    ensures var q := SkipLoop(p, depth).value;
      var k := |p.rest| - |q.rest|;
      0 < k <= |p.rest| && q.rest == p.rest[k..] &&
      p.rest[k - 1] == End(q.event.name) &&
      depth + Balance(p.rest[..k]) == 0 &&
      forall j :: 0 <= j < k ==> depth + Balance(p.rest[..j]) > 0
    decreases Remaining(p)
  {
    if |p.rest| == 0 {
      assert false;
    } else {
      var t := p.rest[0];
      var p1 := Next(p).value;
      assert p1.rest == p.rest[1..];
      if t.End? && depth == 1 {
        assert p.rest[..1] == [t];
        assert p.rest[..0] == [];
      } else {
        var d' := depth + Weight(t);
        assert SkipLoop(p, depth) == SkipLoop(p1, d');
        SkipLoopStopsAtMatchingEnd(p1, d');
        var q := SkipLoop(p, depth).value;
        var k := |p.rest| - |q.rest|;
        assert p.rest[1..][k - 1..] == p.rest[k..];
        BalancePrefix(p.rest, k);
        forall j | 0 <= j < k ensures depth + Balance(p.rest[..j]) > 0 {
          if j == 0 {
            assert p.rest[..j] == [];
          } else {
            BalancePrefix(p.rest, j);
          }
        }
      }
    }
  }

  // ---------------------------------------------------------------------
  // readRssItem and readFeed

  /** An item's title and link; null when the item has no such child. */
  datatype Item = Item(title: Option<string>, link: Option<string>)

  /** The loop of `readRssItem` with the title and link read so far: a
      `title` or `link` child replaces the earlier one, any other child is
      skipped, text is ignored, and the first end tag ends the item. */
  function ReadItemLoop(p: Cursor, item: Item): (r: Result<(Item, Cursor), XmlFault>)
    ensures r.Ok? ==> r.value.1.event.EndTag? && Remaining(r.value.1) < Remaining(p)
    ensures r.Err? ==> r.error in {XmlError, PastEnd}
    decreases Remaining(p)
  {
    var p1 :- Next(p);
    if p1.event.EndTag? then Ok((item, p1))
    else if p1.event.StartTag? then
      var n := p1.event.name;
      if n == "title" then
        var (title, p2) :- ReadTextElement(p1, "title");
        ReadItemLoop(p2, item.(title := Some(title)))
      else if n == "link" then
        var (link, p2) :- ReadTextElement(p1, "link");
        ReadItemLoop(p2, item.(link := Some(link)))
      else
        var p2 :- Skip(p1);
        ReadItemLoop(p2, item)
    else ReadItemLoop(p1, item)
  }

  /** `readRssItem`: from the item's start tag to its end tag. */
  function ReadItem(p: Cursor): (r: Result<(Item, Cursor), XmlFault>)
    ensures p.event != StartTag("item") ==> r == Err(XmlError)
    ensures p.event == StartTag("item") ==> r == ReadItemLoop(p, Item(None, None))
  {
    var _ :- Require(p, StartTag("item"));
    ReadItemLoop(p, Item(None, None))
  }

  type Feed = Entries<Option<string>, Option<string>>

  /** The loop of `readFeed`: each `item` child is read and put into the map
      under its title, every other child is skipped, text is ignored, and the
      first end tag ends the feed. */
  function FeedLoop(p: Cursor, entries: Feed): (r: Result<Feed, XmlFault>)
    ensures r.Ok? && Valid(entries) ==> Valid(r.value)
    ensures r.Ok? ==> |r.value| >= |entries|
    ensures r.Err? ==> r.error in {XmlError, PastEnd}
    decreases Remaining(p)
  {
    var p1 :- Next(p);
    if p1.event.EndTag? then Ok(entries)
    else if p1.event.StartTag? then
      if p1.event.name == "item" then
        var (item, p2) :- ReadItem(p1);
        FeedLoop(p2, Put(entries, item.title, item.link))
      else
        var p2 :- Skip(p1);
        FeedLoop(p2, entries)
    else FeedLoop(p1, entries)
  }

  /** `readFeed`: to the first tag inside the root, then its children. */
  function ReadFeed(p: Cursor): (r: Result<Feed, XmlFault>)
    ensures r.Ok? ==> Valid(r.value)
    ensures NextTag(p).Err? ==> r == Err(NextTag(p).error)
    ensures r.Err? ==> r.error in {XmlError, PastEnd}
  {
    var p1 :- NextTag(p);
    FeedLoop(p1, [])
  }

  /** The walk over a token list: to the root tag, then `readFeed`. */
  function ParseTokens(tokens: seq<Token>): (r: Result<Feed, XmlFault>)
    ensures r.Ok? ==> Valid(r.value)
    ensures r.Err? ==> r.error in {XmlError, PastEnd}
  {
    var p :- NextTag(Cursor(StartDocument, tokens));
    ReadFeed(p)
  }

  /** `parse(in)`: the stream is closed on every path, success or failure. */
  function Parse(input: Stream<seq<Token>>): (r: (Result<Feed, XmlFault>, Stream<seq<Token>>))
    ensures !r.1.open && r.1.content == input.content
    ensures !input.open ==> r.0 == Err(ReadError)
    ensures input.open ==> r.0 == ParseTokens(input.content)
  {
    if !input.open then (Err(ReadError), Close(input))
    else (ParseTokens(input.content), Close(input))
  }
}
