/** What RSSFeedXmlParser computes, stated over the document tree rather
    than over pull events, and the theorem that the walk computes it for
    every well-formed document. */
module RssFeedSpec {
  import opened Results
  import opened LinkedMap
  import opened RssFeedParser

  /** A document node: an element with its children, or a run of text. */
  datatype Node = Elem(name: string, children: seq<Node>) | Txt(text: string)

  /** The tokens of a node, in document order. */
  function Events(n: Node): seq<Token>
    decreases n
  {
    match n
    case Elem(name, cs) => [Start(name)] + EventsOf(cs) + [End(name)]
    case Txt(s) => [Chars(s)]
  }

  function EventsOf(cs: seq<Node>): seq<Token>
    decreases cs
  {
    if |cs| == 0 then [] else Events(cs[0]) + EventsOf(cs[1..])
  }

  /** What the tokeniser guarantees: text runs are non-empty and coalesced,
      so no two text nodes are adjacent. */
  predicate WellFormed(n: Node)
    decreases n
  {
    match n
    case Elem(_, cs) => WellFormedAll(cs)
    case Txt(s) => s != ""
  }

  predicate WellFormedAll(cs: seq<Node>)
    decreases cs
  {
    (forall i :: 0 <= i < |cs| ==> WellFormed(cs[i])) &&
    (forall i :: 0 <= i < |cs| - 1 ==> !(cs[i].Txt? && cs[i + 1].Txt?))
  }

  /** The value of a `title` or `link` element with children `cs`: empty
      content gives "", one text run gives its text, anything else fails. */
  function TextValue(cs: seq<Node>): Result<string, XmlFault> {
    if |cs| == 0 then Ok("")
    else if |cs| == 1 && cs[0].Txt? then Ok(cs[0].text)
    else Err(XmlError)
  }

  /** An item's children read left to right: the last `title` and the last
      `link` win, other children and text are ignored. */
  function ItemFold(cs: seq<Node>, item: Item): Result<Item, XmlFault>
    decreases |cs|
  {
    if |cs| == 0 then Ok(item)
    else match cs[0]
      case Txt(_) => ItemFold(cs[1..], item)
      case Elem(n, ccs) =>
        if n == "title" then
          var t :- TextValue(ccs);
          ItemFold(cs[1..], item.(title := Some(t)))
        else if n == "link" then
          var l :- TextValue(ccs);
          ItemFold(cs[1..], item.(link := Some(l)))
        else ItemFold(cs[1..], item)
  }

  /** The map entry of an item: its title as key, its link as value. */
  function PairOf(it: Item): (Option<string>, Option<string>) { (it.title, it.link) }

  /** The (title, link) pair of every `item` child, in document order. */
  function ItemPairs(cs: seq<Node>): Result<seq<(Option<string>, Option<string>)>, XmlFault>
    decreases |cs|
  {
    if |cs| == 0 then Ok([])
    else if cs[0].Elem? && cs[0].name == "item" then
      var it :- ItemFold(cs[0].children, Item(None, None));
      var ps :- ItemPairs(cs[1..]);
      Ok([PairOf(it)] + ps)
    else ItemPairs(cs[1..])
  }

  /** The children of the channel: the root's first child element, after at
      most one white-space text node. */
  function ChannelOf(cs: seq<Node>): Result<seq<Node>, XmlFault> {
    if |cs| == 0 then Err(PastEnd)
    else if cs[0].Elem? then Ok(cs[0].children)
    else if !IsWhitespace(cs[0].text) then Err(XmlError)
    else if |cs| == 1 then Err(PastEnd)
    else if cs[1].Elem? then Ok(cs[1].children)
    else Err(XmlError)
  }

  /** The reference definition of the feed: the channel's item pairs put, in
      order, into an empty insertion-ordered map. */
  function FeedSpec(root: Node): Result<Feed, XmlFault>
    requires root.Elem?
  {
    var channel :- ChannelOf(root.children);
    var ps :- ItemPairs(channel);
    Ok(FromPairs(ps))
  }

  // ---------------------------------------------------------------------
  // Token-list algebra

  lemma ElemEvents(name: string, cs: seq<Node>, rest: seq<Token>)
    ensures Events(Elem(name, cs)) + rest == [Start(name)] + (EventsOf(cs) + ([End(name)] + rest))
  {
  }

  lemma EventsOfCons(cs: seq<Node>, rest: seq<Token>)
    requires |cs| > 0
    ensures EventsOf(cs) + rest == Events(cs[0]) + (EventsOf(cs[1..]) + rest)
  {
  }

  lemma WellFormedTail(cs: seq<Node>)
    requires |cs| > 0 && WellFormedAll(cs)
    ensures WellFormed(cs[0]) && WellFormedAll(cs[1..])
  {
    assert forall i :: 0 <= i < |cs[1..]| ==> cs[1..][i] == cs[i + 1];
  }

  // ---------------------------------------------------------------------
  // skip over a subtree

  lemma SkipLoopIgnoresEvent(e: Event, e': Event, rest: seq<Token>, depth: nat)
    requires depth >= 1 && e != EndDocument && e' != EndDocument
    ensures SkipLoop(Cursor(e, rest), depth) == SkipLoop(Cursor(e', rest), depth)
  {
    assert Next(Cursor(e, rest)) == Next(Cursor(e', rest));
  }

  /** Inside a skip, the tokens of a whole subtree leave the depth as it was. */
  lemma {:induction false} SkipNode(n: Node, rest: seq<Token>, e: Event, e': Event, depth: nat)
    requires depth >= 1 && e != EndDocument && e' != EndDocument
    ensures SkipLoop(Cursor(e, Events(n) + rest), depth) == SkipLoop(Cursor(e', rest), depth)
    decreases n, 1
  {
    match n
    case Txt(s) =>
      assert Events(n) + rest == [Chars(s)] + rest;
      assert SkipLoop(Cursor(e, Events(n) + rest), depth) == SkipLoop(Cursor(Text(s), rest), depth);
      SkipLoopIgnoresEvent(Text(s), e', rest, depth);
    case Elem(name, cs) =>
      ElemEvents(name, cs, rest);
      var inner := EventsOf(cs) + ([End(name)] + rest);
      assert SkipLoop(Cursor(e, Events(n) + rest), depth) == SkipLoop(Cursor(StartTag(name), inner), depth + 1);
      SkipNodes(cs, [End(name)] + rest, StartTag(name), StartTag(name), depth + 1);
      assert SkipLoop(Cursor(StartTag(name), [End(name)] + rest), depth + 1) == SkipLoop(Cursor(EndTag(name), rest), depth);
      SkipLoopIgnoresEvent(EndTag(name), e', rest, depth);
  }

  lemma {:induction false} SkipNodes(cs: seq<Node>, rest: seq<Token>, e: Event, e': Event, depth: nat)
    requires depth >= 1 && e != EndDocument && e' != EndDocument
    ensures SkipLoop(Cursor(e, EventsOf(cs) + rest), depth) == SkipLoop(Cursor(e', rest), depth)
    decreases cs, 0
  {
    if |cs| == 0 {
      assert EventsOf(cs) + rest == rest;
      SkipLoopIgnoresEvent(e, e', rest, depth);
    } else {
      EventsOfCons(cs, rest);
      SkipNode(cs[0], EventsOf(cs[1..]) + rest, e, e', depth);
      SkipNodes(cs[1..], rest, e', e', depth);
    }
  }

  /** `skip` on an element's start tag lands on that element's end tag. */
  lemma SkipElement(name: string, cs: seq<Node>, rest: seq<Token>)
    ensures Skip(Cursor(StartTag(name), EventsOf(cs) + ([End(name)] + rest))) == Ok(Cursor(EndTag(name), rest))
  {
    SkipNodes(cs, [End(name)] + rest, StartTag(name), StartTag(name), 1);
  }

  // ---------------------------------------------------------------------
  // readTitle / readLink over an element

  function AtEnd<T>(r: Result<T, XmlFault>, p: Cursor): Result<(T, Cursor), XmlFault> {
    match r
    case Ok(v) => Ok((v, p))
    case Err(x) => Err(x)
  }

  lemma TextElementWalk(tag: string, cs: seq<Node>, rest: seq<Token>)
    requires WellFormedAll(cs)
    ensures ReadTextElement(Cursor(StartTag(tag), EventsOf(cs) + ([End(tag)] + rest)), tag) ==
      AtEnd(TextValue(cs), Cursor(EndTag(tag), rest))
  {
    if |cs| == 0 {
      EmptyTextElement(tag, cs, rest);
    } else {
      EventsOfCons(cs, [End(tag)] + rest);
      var after := EventsOf(cs[1..]) + ([End(tag)] + rest);
      if cs[0].Elem? {
        TextElementOpensWithElement(tag, cs, rest, after);
      } else if |cs| == 1 {
        TextElementOfText(tag, cs, rest, after);
      } else {
        TextElementOfTextThenElement(tag, cs, rest, after);
      }
    }
  }

  lemma EmptyTextElement(tag: string, cs: seq<Node>, rest: seq<Token>)
    requires |cs| == 0
    ensures ReadTextElement(Cursor(StartTag(tag), EventsOf(cs) + ([End(tag)] + rest)), tag) ==
      AtEnd(TextValue(cs), Cursor(EndTag(tag), rest))
  {
    var p := Cursor(StartTag(tag), EventsOf(cs) + ([End(tag)] + rest));
    assert EventsOf(cs) + ([End(tag)] + rest) == [End(tag)] + rest;
    assert Next(p) == Ok(Cursor(EndTag(tag), rest));
  }

  lemma TextElementOpensWithElement(tag: string, cs: seq<Node>, rest: seq<Token>, after: seq<Token>)
    requires |cs| > 0 && cs[0].Elem?
    requires EventsOf(cs) + ([End(tag)] + rest) == Events(cs[0]) + after
    ensures ReadTextElement(Cursor(StartTag(tag), EventsOf(cs) + ([End(tag)] + rest)), tag) ==
      AtEnd(TextValue(cs), Cursor(EndTag(tag), rest))
  {
    var p := Cursor(StartTag(tag), EventsOf(cs) + ([End(tag)] + rest));
    ElemEvents(cs[0].name, cs[0].children, after);
    assert Next(p).value.event == StartTag(cs[0].name);
  }

  lemma TextElementOfText(tag: string, cs: seq<Node>, rest: seq<Token>, after: seq<Token>)
    requires |cs| == 1 && cs[0].Txt?
    requires after == EventsOf(cs[1..]) + ([End(tag)] + rest)
    requires EventsOf(cs) + ([End(tag)] + rest) == Events(cs[0]) + after
    ensures ReadTextElement(Cursor(StartTag(tag), EventsOf(cs) + ([End(tag)] + rest)), tag) ==
      AtEnd(TextValue(cs), Cursor(EndTag(tag), rest))
  {
    var p := Cursor(StartTag(tag), EventsOf(cs) + ([End(tag)] + rest));
    assert after == [End(tag)] + rest by { assert cs[1..] == []; }
    assert Next(p) == Ok(Cursor(Text(cs[0].text), after));
    assert Next(Cursor(Text(cs[0].text), after)) == Ok(Cursor(EndTag(tag), rest));
  }

  lemma TextElementOfTextThenElement(tag: string, cs: seq<Node>, rest: seq<Token>, after: seq<Token>)
    requires |cs| > 1 && cs[0].Txt? && WellFormedAll(cs)
    requires after == EventsOf(cs[1..]) + ([End(tag)] + rest)
    requires EventsOf(cs) + ([End(tag)] + rest) == Events(cs[0]) + after
    ensures ReadTextElement(Cursor(StartTag(tag), EventsOf(cs) + ([End(tag)] + rest)), tag) ==
      AtEnd(TextValue(cs), Cursor(EndTag(tag), rest))
  {
    var p := Cursor(StartTag(tag), EventsOf(cs) + ([End(tag)] + rest));
    assert Next(p) == Ok(Cursor(Text(cs[0].text), after));
    WellFormedTail(cs);
    assert !cs[1].Txt?;
    EventsOfCons(cs[1..], [End(tag)] + rest);
    ElemEvents(cs[1].name, cs[1].children, EventsOf(cs[1..][1..]) + ([End(tag)] + rest));
    assert Next(Cursor(Text(cs[0].text), after)).value.event == StartTag(cs[1].name);
  }

  // ---------------------------------------------------------------------
  // readRssItem over an item's children

  lemma {:induction false} ItemWalk(cs: seq<Node>, item: Item, name: string, rest: seq<Token>, e: Event)
    requires WellFormedAll(cs) && e != EndDocument
    ensures ReadItemLoop(Cursor(e, EventsOf(cs) + ([End(name)] + rest)), item) ==
      AtEnd(ItemFold(cs, item), Cursor(EndTag(name), rest))
    decreases |cs|
  {
    if |cs| == 0 {
      assert EventsOf(cs) + ([End(name)] + rest) == [End(name)] + rest;
    } else {
      WellFormedTail(cs);
      EventsOfCons(cs, [End(name)] + rest);
      var after := EventsOf(cs[1..]) + ([End(name)] + rest);
      match cs[0]
      case Txt(s) =>
        assert Events(cs[0]) + after == [Chars(s)] + after;
        ItemWalk(cs[1..], item, name, rest, Text(s));
      case Elem(m, ccs) =>
        ElemEvents(m, ccs, after);
        var p1 := Cursor(StartTag(m), EventsOf(ccs) + ([End(m)] + after));
        assert Next(Cursor(e, EventsOf(cs) + ([End(name)] + rest))) == Ok(p1);
        if m == "title" {
          TextElementWalk(m, ccs, after);
          if TextValue(ccs).Ok? {
            ItemWalk(cs[1..], item.(title := Some(TextValue(ccs).value)), name, rest, EndTag(m));
          }
        } else if m == "link" {
          TextElementWalk(m, ccs, after);
          if TextValue(ccs).Ok? {
            ItemWalk(cs[1..], item.(link := Some(TextValue(ccs).value)), name, rest, EndTag(m));
          }
        } else {
          SkipElement(m, ccs, after);
          ItemWalk(cs[1..], item, name, rest, EndTag(m));
        }
    }
  }

  // ---------------------------------------------------------------------
  // readFeed over the channel's children

  function Outcome(r: Result<seq<(Option<string>, Option<string>)>, XmlFault>, done: seq<(Option<string>, Option<string>)>): Result<Feed, XmlFault> {
    match r
    case Ok(ps) => Ok(FromPairs(done + ps))
    case Err(x) => Err(x)
  }

  /** One step of the feed loop on the next token. */
  lemma FeedLoopOnText(e: Event, s: string, tokens: seq<Token>, entries: Feed)
    requires e != EndDocument
    ensures FeedLoop(Cursor(e, [Chars(s)] + tokens), entries) == FeedLoop(Cursor(Text(s), tokens), entries)
  {
    assert Next(Cursor(e, [Chars(s)] + tokens)) == Ok(Cursor(Text(s), tokens));
  }

  lemma FeedLoopOnEnd(e: Event, name: string, tokens: seq<Token>, entries: Feed)
    requires e != EndDocument
    ensures FeedLoop(Cursor(e, [End(name)] + tokens), entries) == Ok(entries)
  {
    assert Next(Cursor(e, [End(name)] + tokens)) == Ok(Cursor(EndTag(name), tokens));
  }

  lemma FeedLoopOnItem(e: Event, tokens: seq<Token>, entries: Feed)
    requires e != EndDocument
    ensures var r := ReadItem(Cursor(StartTag("item"), tokens));
      FeedLoop(Cursor(e, [Start("item")] + tokens), entries) ==
      if r.Ok? then FeedLoop(r.value.1, Put(entries, r.value.0.title, r.value.0.link)) else Err(r.error)
  {
    assert Next(Cursor(e, [Start("item")] + tokens)) == Ok(Cursor(StartTag("item"), tokens));
  }

  lemma FeedLoopOnOther(e: Event, name: string, tokens: seq<Token>, entries: Feed)
    requires e != EndDocument && name != "item"
    ensures var r := Skip(Cursor(StartTag(name), tokens));
      FeedLoop(Cursor(e, [Start(name)] + tokens), entries) == if r.Ok? then FeedLoop(r.value, entries) else Err(r.error)
  {
    assert Next(Cursor(e, [Start(name)] + tokens)) == Ok(Cursor(StartTag(name), tokens));
  }

  lemma {:induction false} FeedWalk(cs: seq<Node>, done: seq<(Option<string>, Option<string>)>, name: string, rest: seq<Token>, e: Event)
    requires WellFormedAll(cs) && e != EndDocument
    ensures FeedLoop(Cursor(e, EventsOf(cs) + ([End(name)] + rest)), FromPairs(done)) == Outcome(ItemPairs(cs), done)
    decreases |cs|, 1
  {
    if |cs| == 0 {
      assert EventsOf(cs) + ([End(name)] + rest) == [End(name)] + rest;
      FeedLoopOnEnd(e, name, rest, FromPairs(done));
      assert done + [] == done;
    } else if cs[0].Txt? {
      WellFormedTail(cs);
      EventsOfCons(cs, [End(name)] + rest);
      var after := EventsOf(cs[1..]) + ([End(name)] + rest);
      assert Events(cs[0]) + after == [Chars(cs[0].text)] + after;
      FeedLoopOnText(e, cs[0].text, after, FromPairs(done));
      FeedWalk(cs[1..], done, name, rest, Text(cs[0].text));
    } else if cs[0].name == "item" {
      FeedWalkItem(cs, done, name, rest, e);
    } else {
      FeedWalkSkip(cs, done, name, rest, e);
    }
  }

  /** Reading an item child of the channel and putting it into the map. */
  lemma FeedLoopPastItem(cs: seq<Node>, done: seq<(Option<string>, Option<string>)>, name: string, rest: seq<Token>, e: Event)
    requires WellFormedAll(cs) && e != EndDocument
    requires |cs| > 0 && cs[0].Elem? && cs[0].name == "item"
    ensures var it := ItemFold(cs[0].children, Item(None, None));
      var after := EventsOf(cs[1..]) + ([End(name)] + rest);
      FeedLoop(Cursor(e, EventsOf(cs) + ([End(name)] + rest)), FromPairs(done)) ==
      if it.Ok? then FeedLoop(Cursor(EndTag("item"), after), FromPairs(done + [PairOf(it.value)]))
      else Err(it.error)
  {
    WellFormedTail(cs);
    EventsOfCons(cs, [End(name)] + rest);
    var after := EventsOf(cs[1..]) + ([End(name)] + rest);
    var ccs := cs[0].children;
    ElemEvents("item", ccs, after);
    var inner := EventsOf(ccs) + ([End("item")] + after);
    assert EventsOf(cs) + ([End(name)] + rest) == [Start("item")] + inner;
    FeedLoopOnItem(e, inner, FromPairs(done));
    ItemWalk(ccs, Item(None, None), "item", after, StartTag("item"));
    var it := ItemFold(ccs, Item(None, None));
    if it.Ok? {
      FromPairsSnoc(done, PairOf(it.value));
    }
  }

  /** The next child of the channel is an item: it is read and put. */
  lemma {:induction false} FeedWalkItem(cs: seq<Node>, done: seq<(Option<string>, Option<string>)>, name: string, rest: seq<Token>, e: Event)
    requires WellFormedAll(cs) && e != EndDocument
    requires |cs| > 0 && cs[0].Elem? && cs[0].name == "item"
    ensures FeedLoop(Cursor(e, EventsOf(cs) + ([End(name)] + rest)), FromPairs(done)) == Outcome(ItemPairs(cs), done)
    decreases |cs|, 0
  {
    FeedLoopPastItem(cs, done, name, rest, e);
    WellFormedTail(cs);
    var it := ItemFold(cs[0].children, Item(None, None));
    if it.Ok? {
      var pair := PairOf(it.value);
      FeedWalk(cs[1..], done + [pair], name, rest, EndTag("item"));
      var tail := ItemPairs(cs[1..]);
      assert ItemPairs(cs) == if tail.Ok? then Ok([pair] + tail.value) else Err(tail.error);
      OutcomeShift(tail, done, pair);
    }
  }

  lemma OutcomeShift(tail: Result<seq<(Option<string>, Option<string>)>, XmlFault>, done: seq<(Option<string>, Option<string>)>, pair: (Option<string>, Option<string>))
    ensures Outcome(tail, done + [pair]) == Outcome(if tail.Ok? then Ok([pair] + tail.value) else Err(tail.error), done)
  {
    if tail.Ok? {
      assert done + [pair] + tail.value == done + ([pair] + tail.value);
    }
  }

  /** The next child of the channel is another element: it is skipped. */
  lemma {:induction false} FeedWalkSkip(cs: seq<Node>, done: seq<(Option<string>, Option<string>)>, name: string, rest: seq<Token>, e: Event)
    requires WellFormedAll(cs) && e != EndDocument
    requires |cs| > 0 && cs[0].Elem? && cs[0].name != "item"
    ensures FeedLoop(Cursor(e, EventsOf(cs) + ([End(name)] + rest)), FromPairs(done)) == Outcome(ItemPairs(cs), done)
    decreases |cs|, 0
  {
    WellFormedTail(cs);
    EventsOfCons(cs, [End(name)] + rest);
    var after := EventsOf(cs[1..]) + ([End(name)] + rest);
    var m, ccs := cs[0].name, cs[0].children;
    ElemEvents(m, ccs, after);
    FeedLoopOnOther(e, m, EventsOf(ccs) + ([End(m)] + after), FromPairs(done));
    SkipElement(m, ccs, after);
    FeedWalk(cs[1..], done, name, rest, EndTag(m));
  }

  // ---------------------------------------------------------------------
  // The whole document

  /** What the feed loop yields for a root with children `cs`. */
  function RootOutcome(cs: seq<Node>): Result<Feed, XmlFault> {
    match ChannelOf(cs)
    case Ok(channel) => Outcome(ItemPairs(channel), [])
    case Err(x) => Err(x)
  }

  /** From the tag that opens the channel (or the root's end tag), the feed
      loop computes the reference definition. */
  lemma FeedFromRoot(cs: seq<Node>, name: string)
    requires WellFormedAll(cs)
    ensures ReadFeed(Cursor(StartTag(name), EventsOf(cs) + [End(name)])) == RootOutcome(cs)
  {
    if |cs| == 0 {
      RootWithoutChildren(cs, name);
    } else {
      WellFormedTail(cs);
      EventsOfCons(cs, [End(name)]);
      var after := EventsOf(cs[1..]) + [End(name)];
      if cs[0].Elem? {
        RootOpensWithElement(cs, name, after);
      } else if !IsWhitespace(cs[0].text) {
        RootOpensWithText(cs, name, after);
      } else if |cs| == 1 {
        RootHoldsOnlySpace(cs, name, after);
      } else {
        RootOpensWithSpace(cs, name, after);
      }
    }
  }

  lemma RootWithoutChildren(cs: seq<Node>, name: string)
    requires |cs| == 0
    ensures ReadFeed(Cursor(StartTag(name), EventsOf(cs) + [End(name)])) == RootOutcome(cs)
  {
    var p := Cursor(StartTag(name), EventsOf(cs) + [End(name)]);
    assert [End(name)] + [] == [End(name)];
    assert Next(p) == Ok(Cursor(EndTag(name), []));
    assert FeedLoop(Cursor(EndTag(name), []), []) == FeedLoop(Cursor(EndDocument, []), []);
  }

  lemma RootOpensWithElement(cs: seq<Node>, name: string, after: seq<Token>)
    requires |cs| > 0 && cs[0].Elem? && WellFormedAll(cs)
    requires after == EventsOf(cs[1..]) + [End(name)]
    requires EventsOf(cs) + [End(name)] == Events(cs[0]) + after
    ensures ReadFeed(Cursor(StartTag(name), EventsOf(cs) + [End(name)])) == RootOutcome(cs)
  {
    var p := Cursor(StartTag(name), EventsOf(cs) + [End(name)]);
    var m, ccs := cs[0].name, cs[0].children;
    ElemEvents(m, ccs, after);
    assert Next(p) == Ok(Cursor(StartTag(m), EventsOf(ccs) + ([End(m)] + after)));
    FeedWalk(ccs, [], m, after, StartTag(m));
  }

  /** A first child that is text other than white space: nextTag fails. */
  lemma RootOpensWithText(cs: seq<Node>, name: string, after: seq<Token>)
    requires |cs| > 0 && cs[0].Txt? && !IsWhitespace(cs[0].text)
    requires EventsOf(cs) + [End(name)] == Events(cs[0]) + after
    ensures ReadFeed(Cursor(StartTag(name), EventsOf(cs) + [End(name)])) == RootOutcome(cs)
  {
    var p := Cursor(StartTag(name), EventsOf(cs) + [End(name)]);
    assert Next(p) == Ok(Cursor(Text(cs[0].text), after));
    assert NextTag(p) == Err(XmlError);
  }

  /** A root holding only white space: the walk runs past the end. */
  lemma RootHoldsOnlySpace(cs: seq<Node>, name: string, after: seq<Token>)
    requires |cs| == 1 && cs[0].Txt? && IsWhitespace(cs[0].text)
    requires after == EventsOf(cs[1..]) + [End(name)]
    requires EventsOf(cs) + [End(name)] == Events(cs[0]) + after
    ensures ReadFeed(Cursor(StartTag(name), EventsOf(cs) + [End(name)])) == RootOutcome(cs)
  {
    var p := Cursor(StartTag(name), EventsOf(cs) + [End(name)]);
    assert after == [End(name)] by {
      assert cs[1..] == [];
      assert [End(name)] + [] == [End(name)];
    }
    var p1 := Cursor(Text(cs[0].text), [End(name)]);
    assert Next(p) == Ok(p1);
    assert NextTag(p) == Ok(Cursor(EndTag(name), []));
    assert FeedLoop(Cursor(EndTag(name), []), []) == FeedLoop(Cursor(EndDocument, []), []);
  }

  /** White space, then the channel element. */
  lemma RootOpensWithSpace(cs: seq<Node>, name: string, after: seq<Token>)
    requires |cs| > 1 && cs[0].Txt? && IsWhitespace(cs[0].text) && WellFormedAll(cs)
    requires after == EventsOf(cs[1..]) + [End(name)]
    requires EventsOf(cs) + [End(name)] == Events(cs[0]) + after
    ensures ReadFeed(Cursor(StartTag(name), EventsOf(cs) + [End(name)])) == RootOutcome(cs)
  {
    var p := Cursor(StartTag(name), EventsOf(cs) + [End(name)]);
    assert Next(p) == Ok(Cursor(Text(cs[0].text), after));
    assert !cs[1].Txt?;
    WellFormedTail(cs[1..]);
    EventsOfCons(cs[1..], [End(name)]);
    var after' := EventsOf(cs[1..][1..]) + [End(name)];
    ElemEvents(cs[1].name, cs[1].children, after');
    assert Next(Cursor(Text(cs[0].text), after)) ==
      Ok(Cursor(StartTag(cs[1].name), EventsOf(cs[1].children) + ([End(cs[1].name)] + after')));
    FeedWalk(cs[1].children, [], cs[1].name, after', StartTag(cs[1].name));
  }

  /** The walk over a well-formed document's tokens computes the reference
      definition, failures included; the stream is closed either way. */
  lemma ParseComputesFeedSpec(root: Node)
    requires root.Elem? && WellFormed(root)
    ensures ParseTokens(Events(root)) == FeedSpec(root)
    ensures Parse(Stream(Events(root), true)).0 == FeedSpec(root)
  {
    var cs := root.children;
    ElemEvents(root.name, cs, []);
    assert Events(root) + [] == Events(root);
    assert [End(root.name)] + [] == [End(root.name)];
    assert Events(root) == [Start(root.name)] + (EventsOf(cs) + [End(root.name)]);
    assert NextTag(Cursor(StartDocument, Events(root))) == Ok(Cursor(StartTag(root.name), EventsOf(cs) + [End(root.name)]));
    FeedFromRoot(cs, root.name);
    if ChannelOf(cs).Ok? && ItemPairs(ChannelOf(cs).value).Ok? {
      var ps := ItemPairs(ChannelOf(cs).value).value;
      assert [] + ps == ps;
    }
  }

  // ---------------------------------------------------------------------
  // What the reference definition promises

  /** The children of every `item` child, in document order. */
  function ItemChildren(cs: seq<Node>): seq<seq<Node>>
    decreases |cs|
  {
    if |cs| == 0 then []
    else (if cs[0].Elem? && cs[0].name == "item" then [cs[0].children] else []) + ItemChildren(cs[1..])
  }

  /** One failing item fails the whole feed, and only a failing item does. */
  lemma {:induction false} ItemPairsSucceedExactly(cs: seq<Node>)
    ensures var items := ItemChildren(cs);
      ItemPairs(cs).Ok? <==> forall i :: 0 <= i < |items| ==> ItemFold(items[i], Item(None, None)).Ok?
    decreases |cs|
  {
    if |cs| > 0 {
      ItemPairsSucceedExactly(cs[1..]);
      if cs[0].Elem? && cs[0].name == "item" {
        ItemChildrenAtItem(cs);
        AllFoldsCons(ItemChildren(cs), cs[0].children, ItemChildren(cs[1..]));
        ItemPairsAtItem(cs);
      } else {
        assert ItemChildren(cs) == ItemChildren(cs[1..]);
      }
    }
  }

  /** Exactly the item children contribute, one pair each and in order. */
  lemma {:induction false} ItemPairsAreItems(cs: seq<Node>)
    requires ItemPairs(cs).Ok?
    ensures var items := ItemChildren(cs);
      |ItemPairs(cs).value| == |items| &&
      forall i :: 0 <= i < |items| ==>
        ItemFold(items[i], Item(None, None)).Ok? && ItemPairs(cs).value[i] == PairOf(ItemFold(items[i], Item(None, None)).value)
    decreases |cs|
  {
    if |cs| > 0 {
      var items := ItemChildren(cs);
      var tail := ItemChildren(cs[1..]);
      if cs[0].Elem? && cs[0].name == "item" {
        var head := cs[0].children;
        ItemPairsAtItem(cs);
        ItemPairsAreItems(cs[1..]);
        assert items == [head] + tail;
        var v := ItemPairs(cs).value;
        assert items[0] == head && v[0] == PairOf(ItemFold(head, Item(None, None)).value);
        assert forall i :: 1 <= i < |items| ==> items[i] == tail[i - 1] && v[i] == ItemPairs(cs[1..]).value[i - 1];
      } else {
        assert items == tail;
        ItemPairsAreItems(cs[1..]);
      }
    }
  }

  /** One step of `ItemChildren` at an item child. */
  lemma ItemChildrenAtItem(cs: seq<Node>)
    requires |cs| > 0 && cs[0].Elem? && cs[0].name == "item"
    ensures ItemChildren(cs) == [cs[0].children] + ItemChildren(cs[1..])
  {
  }

  /** One step of `ItemPairs` at an item child. */
  lemma ItemPairsAtItem(cs: seq<Node>)
    requires |cs| > 0 && cs[0].Elem? && cs[0].name == "item"
    ensures ItemPairs(cs).Ok? <==> ItemFold(cs[0].children, Item(None, None)).Ok? && ItemPairs(cs[1..]).Ok?
    ensures ItemPairs(cs).Ok? ==>
      ItemPairs(cs).value == [PairOf(ItemFold(cs[0].children, Item(None, None)).value)] + ItemPairs(cs[1..]).value
  {
  }

  /** Every item of `[head] + tail` folds without error exactly when `head`
      and every item of `tail` do. */
  lemma AllFoldsCons(items: seq<seq<Node>>, head: seq<Node>, tail: seq<seq<Node>>)
    requires items == [head] + tail
    ensures (forall i :: 0 <= i < |items| ==> ItemFold(items[i], Item(None, None)).Ok?) <==>
      (ItemFold(head, Item(None, None)).Ok? && forall i :: 0 <= i < |tail| ==> ItemFold(tail[i], Item(None, None)).Ok?)
  {
    assert items[0] == head;
    assert forall i :: 0 <= i < |tail| ==> items[i + 1] == tail[i];
  }

  /** Reading one more child after `cs` continues from the item read so far. */
  lemma {:induction false} ItemFoldSnoc(cs: seq<Node>, c: Node, item: Item)
    ensures ItemFold(cs + [c], item) ==
      if ItemFold(cs, item).Ok? then ItemFold([c], ItemFold(cs, item).value) else ItemFold(cs, item)
    decreases |cs|
  {
    if |cs| == 0 {
      assert cs + [c] == [c];
    } else {
      assert (cs + [c])[0] == cs[0] && (cs + [c])[1..] == cs[1..] + [c];
      match cs[0]
      case Txt(_) =>
        ItemFoldSnoc(cs[1..], c, item);
      case Elem(n, ccs) =>
        if n == "title" {
          if TextValue(ccs).Ok? {
            ItemFoldSnoc(cs[1..], c, item.(title := Some(TextValue(ccs).value)));
          }
        } else if n == "link" {
          if TextValue(ccs).Ok? {
            ItemFoldSnoc(cs[1..], c, item.(link := Some(TextValue(ccs).value)));
          }
        } else {
          ItemFoldSnoc(cs[1..], c, item);
        }
    }
  }

  /** A later `title` child overwrites the title read before it, and a later
      `link` child the link; any other child, and text, changes nothing. */
  lemma LaterChildOverwrites(cs: seq<Node>, s: string, item: Item)
    requires ItemFold(cs, item).Ok?
    ensures ItemFold(cs + [Elem("title", [Txt(s)])], item) == Ok(ItemFold(cs, item).value.(title := Some(s)))
    ensures ItemFold(cs + [Elem("link", [Txt(s)])], item) == Ok(ItemFold(cs, item).value.(link := Some(s)))
    ensures ItemFold(cs + [Txt(s)], item) == ItemFold(cs, item)
    ensures forall n, ccs :: n != "title" && n != "link" ==> ItemFold(cs + [Elem(n, ccs)], item) == ItemFold(cs, item)
  {
    ItemFoldSnoc(cs, Elem("title", [Txt(s)]), item);
    ItemFoldSnoc(cs, Elem("link", [Txt(s)]), item);
    ItemFoldSnoc(cs, Txt(s), item);
    forall n, ccs | n != "title" && n != "link" ensures ItemFold(cs + [Elem(n, ccs)], item) == ItemFold(cs, item) {
      ItemFoldSnoc(cs, Elem(n, ccs), item);
    }
  }

  /** An item with no `title` child keeps the null title it started with,
      and one with no `link` child the null link. */
  lemma {:induction false} MissingChildStaysNull(cs: seq<Node>, item: Item)
    requires ItemFold(cs, item).Ok?
    ensures (forall i :: 0 <= i < |cs| ==> !(cs[i].Elem? && cs[i].name == "title")) ==> ItemFold(cs, item).value.title == item.title
    ensures (forall i :: 0 <= i < |cs| ==> !(cs[i].Elem? && cs[i].name == "link")) ==> ItemFold(cs, item).value.link == item.link
    decreases |cs|
  {
    if |cs| > 0 {
      assert forall i :: 0 <= i < |cs[1..]| ==> cs[1..][i] == cs[i + 1];
      match cs[0]
      case Txt(_) =>
        MissingChildStaysNull(cs[1..], item);
      case Elem(n, ccs) =>
        if n == "title" {
          MissingChildStaysNull(cs[1..], item.(title := Some(TextValue(ccs).value)));
        } else if n == "link" {
          MissingChildStaysNull(cs[1..], item.(link := Some(TextValue(ccs).value)));
        } else {
          MissingChildStaysNull(cs[1..], item);
        }
    }
  }

  /** The feed map: one entry per distinct title, in the order titles first
      occur, never more entries than items; with distinct titles it is the
      item list itself. */
  lemma FeedEntries(root: Node)
    requires root.Elem? && FeedSpec(root).Ok?
    ensures var ps := ItemPairs(ChannelOf(root.children).value).value;
      var m := FeedSpec(root).value;
      Valid(m) && |m| <= |ps| &&
      (forall k :: k in Keys(m) <==> k in Keys(ps)) &&
      InFirstOccurrenceOrder(Keys(m), Keys(ps)) &&
      (Distinct(Keys(ps)) ==> m == ps)
  {
    var ps := ItemPairs(ChannelOf(root.children).value).value;
    FromPairsKeys(ps);
    FromPairsSize(ps);
  }

  /** A title maps to the link of the last item carrying it. */
  lemma FeedLookup(root: Node, i: nat)
    requires root.Elem? && FeedSpec(root).Ok?
    requires var ps := ItemPairs(ChannelOf(root.children).value).value;
      i < |ps| && forall j :: i < j < |ps| ==> ps[j].0 != ps[i].0
    ensures var ps := ItemPairs(ChannelOf(root.children).value).value;
      Get(FeedSpec(root).value, ps[i].0) == Some(ps[i].1)
  {
    var ps := ItemPairs(ChannelOf(root.children).value).value;
    FromPairsGet(ps, ps[i].0, i);
  }

  /** What follows the channel in the root never reaches the result. */
  lemma LaterSiblingsIgnored(name: string, channel: Node, more: seq<Node>)
    requires channel.Elem? && WellFormed(Elem(name, [channel] + more))
    ensures ParseTokens(Events(Elem(name, [channel] + more))) == ParseTokens(Events(Elem(name, [channel])))
  {
    var cs := [channel] + more;
    WellFormedTail(cs);
    assert cs[1..] == more;
    assert WellFormedAll([channel]);
    ParseComputesFeedSpec(Elem(name, cs));
    ParseComputesFeedSpec(Elem(name, [channel]));
  }
}
