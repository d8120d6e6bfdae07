# rss-bridge-editor, modelled in Dafny

The editor keeps a list of up to ten YouTube channel-id slots. From them it writes one
RSS-Bridge link: a `FeedMergeBridge` URL whose parameters `feed_1`, `feed_2`, … each carry a
channel's video feed URL, escaped with `encodeURIComponent`. A link pasted into the editor is
read back into ten slots: the `channel_id` of each `feed_k`, for k from 1 to 10. The merged feed
is an Atom document. The editor turns its entries into display items. A channel's own feed gives
the channel's title and its author link. The channel's page, used as its thumbnail, is built
from the id alone.

The model has these modules:

- `FeedSlots` (`feed_slots.dfy`): the slot list and the change, add and remove edits.
- `BridgeLink` (`bridge_link.dfy`): writing the link and reading it back. This module holds the
  round-trip theorems.
- `Atom` (`atom.dfy`): the xml2js-shaped document and its two projections. One maps the entries to
  items, the other builds the channel info.
- Support modules that state the standards the editor leans on:
  - `Text`: ECMAScript `trim` and number-to-decimal.
  - `Utf8`: the WHATWG UTF-8 encoder and decoder.
  - `Percent`: `encodeURIComponent` and the URL Standard's percent-decode.
  - `FormUrlEncoded`: the URL Standard's `application/x-www-form-urlencoded` parser, which
    `URLSearchParams` uses, and a serializer as its partner.
  - `Url`: a URL's query and `searchParams`.
  - `YouTube`: the feed and channel URL templates.
  - `Wrappers`: `Option` and `Result`.

Whether a string parses as a URL (`new URL(s)` not throwing) is a predicate `isUrl` that the
callers pass in. Date formatting (`new Date(…).toLocaleString()`) is a function parameter too.

## Model

| member | source | states |
|---|---|---|
| FeedSlots.EmptySlots | app/page.tsx:35 | The editor starts with exactly ten slots, all empty. |
| FeedSlots.ChangeFeed | app/page.tsx:42-46 | Typing into a slot sets that slot. Every other slot and the list length stay the same. The ten-slot limit is kept. |
| FeedSlots.AddFeed | app/page.tsx:48-52 | Below ten slots, one empty slot is added at the end. At ten or more, the list is unchanged. Existing slots are never touched. |
| FeedSlots.KeepOthers | app/page.tsx:55 | Filtering out one position drops exactly that element and keeps the rest in order. An out-of-range position drops nothing. |
| FeedSlots.RemoveFeed | app/page.tsx:54-57 | Removing a slot yields the slots before it followed by the slots after it. An index outside the list leaves the list unchanged. |
| FeedSlots.RemoveUndoesAdd | app/page.tsx:48-57 | Removing the slot just added gives back the original list. |
| BridgeLink.NonBlank | app/page.tsx:108-109 | The filter keeps only ids that are not blank after trim. Kept ids are not trimmed and come from the list. |
| BridgeLink.NonBlankTrims | app/page.tsx:108-109 | The filter keeps an id exactly when its `trim()` is not the empty string, and treats the rest of the list the same way. |
| BridgeLink.NonBlankAppend | app/page.tsx:108-109 | Filtering a concatenation gives the concatenation of the filtered parts. |
| BridgeLink.NonBlankSingle | app/page.tsx:109 | One id is kept exactly when it is not blank. |
| BridgeLink.NonBlankHasEvery | app/page.tsx:108-109 | Every non-blank id survives the filter. |
| BridgeLink.NonBlankKeepsAll | app/page.tsx:108-109 | A list with no blank ids passes the filter unchanged. |
| BridgeLink.NonBlankDropsBlank | app/page.tsx:108-109 | A list of blank ids filters to nothing. |
| BridgeLink.FeedKeyInjective | app/page.tsx:112 | Different slot numbers give different `feed_k` names. |
| BridgeLink.FeedKeyNotFixed | app/page.tsx:107-117 | No `feed_k` name clashes with `action`, `bridge`, `feed_name` or `format`. |
| BridgeLink.GenerateLinkSerializes | app/page.tsx:105-118 | The generated link is the bridge endpoint, `?`, and the form serialization of the base pairs, one `feed_k` pair per non-blank id numbered from 1, and `format=Atom`. |
| BridgeLink.SearchParamsOfLink | app/page.tsx:105-118 | Reading the generated link's query gives back exactly those pairs, in order, whatever characters the ids hold. |
| BridgeLink.GetFeedKey | app/page.tsx:108-114 | In a generated link, `feed_k` holds the feed URL of the k-th non-blank id. Past the last id, the parameter is absent. |
| BridgeLink.FeedValueEscaped | app/page.tsx:112-114 | A `feed_k` value never holds a raw `&`, `=`, `?`, `#` or `/`, so it cannot break the link's query. |
| BridgeLink.GenerateLink | app/page.tsx:105-118 | Every generated link starts with the fixed base URL and ends with `&format=Atom`, whatever the slots hold. |
| BridgeLink.FormatSuffixText | app/page.tsx:117 | The suffix serializes to the literal `&format=Atom`. |
| BridgeLink.GenerateLinkBare | app/page.tsx:105-118 | The link has nothing between the base and `&format=Atom` exactly when every slot is blank. |
| BridgeLink.FirstRejected | app/page.tsx:131-134 | Returns the first slot from k to ten whose non-empty `feed_k` is not a URL. Returns none exactly when there is no such slot. |
| BridgeLink.ReadLink | app/page.tsx:128-141 | A link that is not a URL fails with `InvalidLink`, and only such a link. Otherwise reading fails exactly when some `feed_k` (k from 1 to 10) is rejected. A success holds ten slots. |
| BridgeLink.ReadParams | app/page.tsx:130-139 | Reading succeeds exactly when no slot is rejected. A failure names the first rejected slot. A success puts slot k's channel id, or "", at position k - 1. |
| BridgeLink.ChannelIdOf | app/page.tsx:134-135 | The channel id read from a feed URL is the value of the first `channel_id` pair in that URL's query. With no such pair, or no `?` at all, it is "". |
| BridgeLink.SlotValue | app/page.tsx:132-137 | When the first `feed_k` pair of the link has a non-empty value, slot k gets the channel id read from that value. A missing or empty `feed_k` leaves it "". |
| BridgeLink.FilledAt | app/page.tsx:130-138 | After positions 1 to n are read, slot j holds the value read for j + 1 when j < n. Otherwise it is still empty. |
| BridgeLink.ParseParams | app/page.tsx:130-139 | The loop from 1 to 10 over the parsed query computes exactly what the reading defines, including stopping at the first throw. |
| BridgeLink.ParseLink | app/page.tsx:128-141 | `parseRssBridgeLink` computes exactly what the reading defines. |
| BridgeLink.ApplyPastedLink | app/page.tsx:234 | The "Parse Link" button either leaves the slots as they were or sets ten slots. It leaves them as they were whenever the link or one of its first ten feed URLs throws. Otherwise the slots become exactly the ones read. |
| BridgeLink.ChannelIdOfFeedUrl | app/page.tsx:134 | For an id made only of RFC 3986 unreserved characters (letters, digits, `-._~`), the `channel_id` read from the channel's feed URL is that id. Other ids are not covered: `%41` reads back as `A` and `a&b` as `a`. |
| BridgeLink.LinkSlot | app/page.tsx:105-141 | In a generated link, slot k reads back as the k-th non-blank id, or as "" past the last one. |
| BridgeLink.ReadLinkAll | app/page.tsx:128-141 | A link whose ten slots are all accepted and hold given values reads as exactly those values. |
| BridgeLink.LinkRoundTrip | app/page.tsx:105-141 | For ids of RFC 3986 unreserved characters whose feed URLs parse, a copied link that is pasted back yields the non-blank ids in order, padded with empty slots to ten. |
| BridgeLink.PasteCopiedLink | app/page.tsx:105-141 | For ids of RFC 3986 unreserved characters whose feed URLs parse, pasting a copied link replaces the slots with its ids, whatever the slots held before. |
| BridgeLink.NonBlankPadded | app/page.tsx:108-109 | Padding at most ten non-blank ids with empty slots, then filtering, gives the ids back. |
| BridgeLink.CopyPasteCopy | app/page.tsx:105-141 | With at most ten non-blank ids, all of RFC 3986 unreserved characters and with feed URLs that parse, the link copied after pasting a link is that same link. |
| BridgeLink.ReadParamsAgree | app/page.tsx:131-132 | Two queries that agree on `feed_1` to `feed_10` read the same. |
| BridgeLink.ReadIgnoresOtherParams | app/page.tsx:128-141 | Only `feed_1` to `feed_10` decide what a link reads as. Every other parameter, `feed_11` included, is ignored. |
| BridgeLink.SameFirstRejected | app/page.tsx:131-134 | Queries that reject the same slots throw at the same first slot. |
| Atom.First | app/page.tsx:86 | `?.[0]` is present exactly when the array is non-empty, and then it is the first element. |
| Atom.AlternateHref | app/page.tsx:82-83 | `find` throws exactly when a link without attributes comes before any alternate link. A non-empty result is the href of the first alternate link. With no alternate link the result is "". |
| Atom.AlternateHrefAt | app/page.tsx:82-83 | The first alternate link decides the result, whatever follows it. |
| Atom.MapEntry | app/page.tsx:81-91 | An entry maps exactly when it has `link` and `published` and the alternate lookup does not throw. The item's link is the alternate href and its date is the formatted first `published`. Its title and channel title come from the entry's first title and first author's name. |
| Atom.MapAll | app/page.tsx:81 | `map` with a callback that may throw succeeds exactly when the callback succeeds on every element. Then the results keep the length and order. |
| Atom.MapAllAppend | app/page.tsx:81 | Mapping a concatenation succeeds exactly when both parts do, and gives the concatenated results. |
| Atom.MapEntries | app/page.tsx:81-91 | Every entry becomes one item, in document order, unless one entry throws. |
| Atom.MapEntriesAppend | app/page.tsx:81-91 | Mapping two runs of entries one after the other maps each run, in order. |
| Atom.RefreshItems | app/page.tsx:65-93 | The displayed items become the entries' items, one per entry in order. They stay as they were on a parse error, a document without entries, or an entry that throws. |
| Atom.OrElse | lib/fetchFeed.ts:30-31 | `a \|\| b` keeps a truthy value and otherwise falls back. |
| YouTube.ChannelFeedUrl | lib/fetchFeed.ts:20-22 | The channel's feed URL starts with `https://www.youtube.com/feeds/videos.xml?` and has the query `channel_id=<id>`, with the id unescaped, whenever the id holds no `#`. The same URL is the `feed_k` value at app/page.tsx:113. |
| YouTube.ChannelFeedUrlEndsWithId | lib/fetchFeed.ts:21 | The whole id, unescaped, ends the feed URL. |
| YouTube.ChannelPageUrl | lib/fetchFeed.ts:32 | The thumbnail is the channel-page prefix followed by the id, unescaped. |
| YouTube.ChannelPageUrlInjective | lib/fetchFeed.ts:32 | Two channels share a thumbnail URL exactly when their ids are equal. |
| Atom.ChannelInfoOf | lib/fetchFeed.ts:25-36 | A parse error rejects. Otherwise the title is the feed title when truthy, else "Unknown Channel". The link is the first author's uri when truthy, else "". The thumbnail is the channel page. |
| Atom.ThumbnailIgnoresDocument | lib/fetchFeed.ts:32 | The thumbnail depends on the channel id alone, never on the document. |
| Atom.UntitledChannel | lib/fetchFeed.ts:30 | A document without a feed title yields "Unknown Channel", never an empty title. |
| Percent.EncodeURIComponent | app/page.tsx:112-114 | `encodeURIComponent` output holds only `%` and ECMAScript uriUnreserved characters. |
| Percent.EscapeByte | app/page.tsx:112-114 | An escaped byte is `%` and two upper-case hex digits whose value is the byte. |
| Percent.PercentDecodeEncode | app/page.tsx:112-114 | Percent-decoding the escaped text gives back the UTF-8 bytes of the original. |
| Url.SearchParams | app/page.tsx:132-134 | A URL without `?` has no search parameters. |
| Url.SearchParamsOfSerialized | app/page.tsx:129-134 | A URL made of a prefix without `?` or `#`, then `?`, then serialized pairs with uriUnreserved names, has exactly those pairs as its `searchParams`, in order. |
| Utf8.DecodeEncode | app/page.tsx:132-134 | UTF-8 decoding undoes UTF-8 encoding for every string. |
| FormUrlEncoded.JoinSplit | app/page.tsx:132 | Splitting the query on `&`, the first step of reading `searchParams`, loses nothing: joining the pieces with `&` gives the query back. |
| FormUrlEncoded.ParseSerialize | app/page.tsx:132-134 | Parsing a serialized pair list whose names need no escaping gives back the list. |
| FormUrlEncoded.Get | app/page.tsx:132 | `searchParams.get` finds nothing exactly when no pair has the name. A value it finds belongs to a pair with that name. |
| FormUrlEncoded.GetFirst | app/page.tsx:132 | `searchParams.get` returns the value of the first pair with the name. |
| Text.Trim | app/page.tsx:109 | `trim()` returns a slice of the string with only white space cut from each side. The slice neither starts nor ends with white space. It is "" exactly when the string is all white space. |
| Text.DecimalInjective | app/page.tsx:112 | Different numbers print as different decimals. |

## Left out

- Network I/O: `fetchFeedServer`, `fetch` and its headers, and reading the response text. Network I/O cannot be modelled as a pure function. The fetched text enters the model only through the parse outcome.
- The XML parser: xml2js itself. Its result tree, or a parse error, is an input to the model.
- Promise and callback ordering: `reject` followed by `resolve` in `fetchChannelInfo`, and the `try`/`catch` that turns an error into `null`. The model gives only the settled outcome.
- Dates: `new Date(…).toLocaleString()` depends on the locale and the clock, so it is a parameter of the model.
- React: state, rendering, `isLoading`, toasts, console logging, the clipboard (`copyRssBridgeLink`) and the `useEffect` hooks. The model keeps only the state values the handlers compute.
- URL parsing: the WHATWG URL parser's validity rules and normalisation are not modelled. Validity is the `isUrl` parameter. The query is the text after the first `?` and before `#`, without the parser's re-encoding of spaces and non-ASCII characters or its tab and newline stripping.
- UTF-16: strings are sequences of code points. Lone surrogates, which `encodeURIComponent` rejects with a `URIError`, cannot occur.
- FeedSlots.ChangeFeed: requires the index to be inside the list. JavaScript would grow the array with holes, but the editor only passes indices of rendered slots.
- BridgeLink.LinkRoundTrip: stated for ids of RFC 3986 unreserved characters whose feed URLs parse. Other ids can be changed by URL parsing of the inner feed URL, and this model does not describe that parsing.
- BridgeLink.CopyPasteCopy: needs at most ten non-blank ids. Reading keeps only `feed_1` to `feed_10`, so extra ids are lost. Like LinkRoundTrip, it is stated only for ids of RFC 3986 unreserved characters whose feed URLs parse: an id such as `a&b` comes back as `a`.
- BridgeLink.PasteCopiedLink: stated only for ids of RFC 3986 unreserved characters whose feed URLs parse, as LinkRoundTrip is. An id such as `a&b` comes back as `a`.
- Url.SearchParams: its own contract states only the URL without `?`. What it reads from other URLs is stated by Url.SearchParamsOfSerialized for serialized queries. Otherwise it is the parser run on the query, with no further promise.
- FormUrlEncoded.ParseSerialize: stated for names made of uriUnreserved characters, which the editor's names all are. Values may be any string.
