/** The two projections of a parsed Atom document: the feed's entries as display items, and a
    channel's feed as its title, author link and page. The document is the tree xml2js builds:
    every child element is an array, an element with attributes is an object whose `$` holds them
    and whose `_` holds the text, an element without attributes is its text. */
module Atom {
  import opened Wrappers
  import YouTube

  /** The value xml2js gives a text element: its text, or an object when it has attributes. */
  datatype XmlText = Plain(text: string) | WithAttributes(content: Option<string>)

  /** A `<link>` element; `attributes` is its `$`, absent when it has none. */
  datatype Link = Link(attributes: Option<map<string, string>>)

  /** An `<author>`: children read with `?.[0]` are sequences, absent meaning empty. */
  datatype Author = Author(name: seq<XmlText>, uri: seq<XmlText>)

  /** An `<entry>`: `link` and `published` are read without `?.`, so their absence matters. */
  datatype Entry = Entry(title: seq<XmlText>, link: Option<seq<Link>>, published: Option<seq<XmlText>>,
                         author: seq<Author>)

  datatype Feed = Feed(title: seq<XmlText>, author: seq<Author>, entry: Option<seq<Entry>>)

  /** The parse result object; `feed` is absent when the root element is something else. */
  datatype Document = Document(feed: Option<Feed>)

  /** What `parseString` hands its callback: an error, or a result that may be null. */
  datatype ParseOutcome = ParseError | Parsed(result: Option<Document>)

  /** A TypeError thrown by reading a property of `undefined`. */
  datatype TypeError = TypeError

  /** One display item; `title` and `channelTitle` are `undefined` when missing. */
  datatype FeedItem = FeedItem(title: Option<string>, link: string, pubDate: string, channelTitle: Option<XmlText>)

  /** The first element of a sequence read with `?.[0]`. */
  function First<T>(s: seq<T>): (r: Option<T>)
    ensures r.Some? <==> |s| > 0
    ensures r.Some? ==> r.value == s[0]
  {
    if |s| == 0 then None else Some(s[0])
  }

  /** JavaScript truthiness of a text value: an object always, a string when non-empty. */
  predicate Truthy(t: XmlText) {
    t.WithAttributes? || t.text != ""
  }

  /** `link.$.rel === "alternate"`, which throws when the link has no `$`. */
  function IsAlternate(l: Link): Result<bool, TypeError> {
    match l.attributes
    case None => Failure(TypeError)
    case Some(attrs) => Success("rel" in attrs && attrs["rel"] == "alternate")
  }

  /** `?.$.href || ""` on a link already known to be the alternate one. */
  function HrefOf(l: Link): string {
    match l.attributes
    case Some(attrs) => if "href" in attrs then attrs["href"] else ""
    case None => ""
  }

  /** `links.find((link) => link.$.rel === "alternate")?.$.href || ""`: the href of the first
      alternate link, "" when none is; a link without attributes met before it throws. */
  function AlternateHref(links: seq<Link>): (r: Result<string, TypeError>)
    ensures r.Failure? <==> exists i :: 0 <= i < |links| && links[i].attributes.None?
                                      && forall j :: 0 <= j < i ==> IsAlternate(links[j]) == Success(false)
    ensures r.Success? && r.value != "" ==>
              exists i :: 0 <= i < |links| && IsAlternate(links[i]) == Success(true) && r.value == HrefOf(links[i])
                          && forall j :: 0 <= j < i ==> IsAlternate(links[j]) == Success(false)
    ensures (forall i :: 0 <= i < |links| ==> IsAlternate(links[i]) == Success(false)) ==> r == Success("")
  {
    if |links| == 0 then Success("")
    else
      match IsAlternate(links[0])
      case Failure(e) => Failure(e)
      case Success(found) =>
        if found then Success(HrefOf(links[0]))
        else
          var r := AlternateHref(links[1..]);
          assert forall i :: 1 <= i < |links| ==> links[i] == links[1..][i - 1];
          r
  }

  /** The first alternate link decides, whatever follows it: with only attributed non-alternate
      links before it, its href is the result. */
  lemma {:induction false} AlternateHrefAt(links: seq<Link>, i: nat)
    requires i < |links| && IsAlternate(links[i]) == Success(true)
    requires forall j :: 0 <= j < i ==> IsAlternate(links[j]) == Success(false)
    ensures AlternateHref(links) == Success(HrefOf(links[i]))
  {
    if i > 0 {
      AlternateHrefAt(links[1..], i - 1);
    }
  }

  /** The arrow function that maps one entry to an item; it throws when `link` or `published`
      is missing or a link before the alternate one has no attributes. */
  function MapEntry(e: Entry, formatDate: Option<XmlText> -> string): (r: Result<FeedItem, TypeError>)
    ensures r.Success? <==> e.link.Some? && AlternateHref(e.link.value).Success? && e.published.Some?
    ensures r.Success? ==> r.value.link == AlternateHref(e.link.value).value
                           && r.value.pubDate == formatDate(First(e.published.value))
    ensures r.Success? ==>
              r.value.title == if |e.title| > 0 && e.title[0].WithAttributes? then e.title[0].content else None
    ensures r.Success? ==>
              r.value.channelTitle == if |e.author| > 0 && |e.author[0].name| > 0 then Some(e.author[0].name[0]) else None
  {
    match e.link
    case None => Failure(TypeError)
    case Some(links) =>
      match AlternateHref(links)
      case Failure(err) => Failure(err)
      case Success(videoLink) =>
        match e.published
        case None => Failure(TypeError)
        case Some(published) =>
          var title := match First(e.title)
                       case Some(t) => if t.WithAttributes? then t.content else None
                       case None => None;
          var channelTitle := match First(e.author)
                              case Some(author) => First(author.name)
                              case None => None;
          Success(FeedItem(title, videoLink, formatDate(First(published)), channelTitle))
  }

  /** `xs.map(f)` where `f` may throw: every element mapped in order, or the first error. */
  function MapAll<A, B, E>(xs: seq<A>, f: A -> Result<B, E>): (r: Result<seq<B>, E>)
    ensures r.Success? <==> forall i :: 0 <= i < |xs| ==> f(xs[i]).Success?
    ensures r.Success? ==> |r.value| == |xs| && forall i :: 0 <= i < |xs| ==> r.value[i] == f(xs[i]).value
  {
    if |xs| == 0 then Success([])
    else
      match f(xs[0])
      case Failure(err) => Failure(err)
      case Success(y) =>
        match MapAll(xs[1..], f)
        case Failure(err) => Failure(err)
        case Success(ys) =>
          assert forall i :: 1 <= i < |xs| ==> xs[i] == xs[1..][i - 1];
          Success([y] + ys)
  }

  /** Mapping two runs one after the other maps each run, in order. */
  lemma MapAllAppend<A, B, E>(a: seq<A>, b: seq<A>, f: A -> Result<B, E>)
    ensures MapAll(a + b, f).Success? <==> MapAll(a, f).Success? && MapAll(b, f).Success?
    ensures MapAll(a + b, f).Success? ==> MapAll(a + b, f).value == MapAll(a, f).value + MapAll(b, f).value
  {
    var ab := a + b;
    assert forall i :: 0 <= i < |a| ==> ab[i] == a[i];
    assert forall i :: 0 <= i < |b| ==> ab[|a| + i] == b[i];
  }

  /** `entries.map(...)`: every entry mapped in order, or the first TypeError. */
  function MapEntries(entries: seq<Entry>, formatDate: Option<XmlText> -> string): (r: Result<seq<FeedItem>, TypeError>)
    ensures r.Success? <==> forall i :: 0 <= i < |entries| ==> MapEntry(entries[i], formatDate).Success?
    ensures r.Success? ==> |r.value| == |entries|
                           && forall i :: 0 <= i < |entries| ==> r.value[i] == MapEntry(entries[i], formatDate).value
  {
    MapAll(entries, e => MapEntry(e, formatDate))
  }

  /** Mapping two runs of entries one after the other maps each run, in order. */
  lemma MapEntriesAppend(a: seq<Entry>, b: seq<Entry>, formatDate: Option<XmlText> -> string)
    ensures MapEntries(a + b, formatDate).Success?
            <==> MapEntries(a, formatDate).Success? && MapEntries(b, formatDate).Success?
    ensures MapEntries(a + b, formatDate).Success? ==>
              MapEntries(a + b, formatDate).value == MapEntries(a, formatDate).value + MapEntries(b, formatDate).value
  {
    MapAllAppend(a, b, e => MapEntry(e, formatDate));
  }

  /** `result.feed?.entry`, with a null result or a parse error giving nothing. */
  function EntriesOf(outcome: ParseOutcome): Option<seq<Entry>> {
    match outcome
    case ParseError => None
    case Parsed(None) => None
    case Parsed(Some(doc)) =>
      match doc.feed
      case None => None
      case Some(feed) => feed.entry
  }

  /** The `parseString` callback of `fetchFeed`: the displayed items become the mapped entries,
      one per entry in document order; a parse error, a null result, a document without entries
      or an entry that throws leaves them as they were. */
  function RefreshItems(current: seq<FeedItem>, outcome: ParseOutcome, formatDate: Option<XmlText> -> string)
    : (r: seq<FeedItem>)
    ensures EntriesOf(outcome).None? ==> r == current
    ensures EntriesOf(outcome).Some? ==>
              var entries := EntriesOf(outcome).value;
              if forall i :: 0 <= i < |entries| ==> MapEntry(entries[i], formatDate).Success? then
                |r| == |entries| && forall i :: 0 <= i < |entries| ==> r[i] == MapEntry(entries[i], formatDate).value
              else r == current
  {
    match EntriesOf(outcome)
    case None => current
    case Some(entries) =>
      match MapEntries(entries, formatDate)
      case Success(items) => items
      case Failure(_) => current
  }

  /** The channel info `fetchChannelInfo` resolves with. */
  datatype ChannelInfo = ChannelInfo(title: XmlText, link: XmlText, thumbnail: string)

  const UnknownChannel := "Unknown Channel"

  /** `a || b` on an optional text value. */
  function OrElse(t: Option<XmlText>, fallback: string): (r: XmlText)
    ensures t.Some? && Truthy(t.value) ==> r == t.value
    ensures !(t.Some? && Truthy(t.value)) ==> r == Plain(fallback)
  {
    match t
    case Some(v) => if Truthy(v) then v else Plain(fallback)
    case None => Plain(fallback)
  }

  /** `result?.feed`, absent on a parse error or a null result. */
  function FeedOf(outcome: ParseOutcome): Option<Feed> {
    match outcome
    case Parsed(Some(doc)) => doc.feed
    case _ => None
  }

  /** The `channelInfo` projection: the feed title or "Unknown Channel", the first author's uri
      or "", and the channel page as thumbnail. A parse error rejects the promise. */
  function ChannelInfoOf(outcome: ParseOutcome, channelId: string): (r: Result<ChannelInfo, ()>)
    ensures r.Failure? <==> outcome.ParseError?
    ensures r.Success? ==> Truthy(r.value.title) && r.value.thumbnail == YouTube.ChannelPageUrl(channelId)
    ensures r.Success? ==>
              var feed := FeedOf(outcome);
              if feed.Some? && |feed.value.title| > 0 && Truthy(feed.value.title[0])
              then r.value.title == feed.value.title[0]
              else r.value.title == Plain(UnknownChannel)
    ensures r.Success? ==>
              var feed := FeedOf(outcome);
              if feed.Some? && |feed.value.author| > 0 && |feed.value.author[0].uri| > 0
                 && Truthy(feed.value.author[0].uri[0])
              then r.value.link == feed.value.author[0].uri[0]
              else r.value.link == Plain("")
  {
    if outcome.ParseError? then Failure(())
    else
      var feed := FeedOf(outcome);
      var title := match feed
                   case Some(f) => First(f.title)
                   case None => None;
      var uri := match feed
                 case Some(f) =>
                   (match First(f.author)
                    case Some(author) => First(author.uri)
                    case None => None)
                 case None => None;
      Success(ChannelInfo(OrElse(title, UnknownChannel), OrElse(uri, ""), YouTube.ChannelPageUrl(channelId)))
  }

  /** The thumbnail depends on the channel id alone, never on the document. */
  lemma ThumbnailIgnoresDocument(o1: ParseOutcome, o2: ParseOutcome, channelId: string)
    requires !o1.ParseError? && !o2.ParseError?
    ensures ChannelInfoOf(o1, channelId).value.thumbnail == ChannelInfoOf(o2, channelId).value.thumbnail
  {
  }

  /** A document without a feed title names the channel "Unknown Channel"; the title is never
      the empty string. */
  lemma UntitledChannel(outcome: ParseOutcome, channelId: string)
    requires !outcome.ParseError?
    requires FeedOf(outcome).None? || FeedOf(outcome).value.title == []
    ensures ChannelInfoOf(outcome, channelId).value.title == Plain(UnknownChannel)
    ensures ChannelInfoOf(outcome, channelId).value.title != Plain("")
  {
  }
}
