/** The bridge-link codec: the slot list written as one FeedMergeBridge URL whose `feed_k`
    parameters carry the channels' feed URLs, and that URL read back into ten slots. */
module BridgeLink {
  import opened Wrappers
  import opened Text
  import opened FormUrlEncoded
  import Percent
  import Url
  import opened Utf8
  import YouTube
  import opened FeedSlots

  const BridgeEndpoint := "https://rss-bridge.org/bridge01/"

  /** The parameters of the fixed base URL, `action=display&bridge=FeedMergeBridge&feed_name=yt`,
      and of the suffix `&format=Atom`. */
  const BaseParams: seq<Pair> := [("action", "display"), ("bridge", "FeedMergeBridge"), ("feed_name", "yt")]
  const FormatParams: seq<Pair> := [("format", "Atom")]

  /** `https://rss-bridge.org/bridge01/?action=display&bridge=FeedMergeBridge&feed_name=yt`: none of
      its values needs escaping, so it is their serialization. */
  const BaseUrl := BridgeEndpoint + "?" + Serialize(BaseParams)
  /** `&format=Atom`. */
  const FormatSuffix := SerializeTail(FormatParams)

  /** The ids `feeds.filter((feed) => feed.trim() !== "")` keeps: untrimmed, in their order.
      `trim()` gives "" exactly for the blank ids, so the condition is written as `!IsBlank`;
      `NonBlankTrims` restates the filter with `Trim` itself. */
  function NonBlank(feeds: seq<string>): (r: seq<string>)
    ensures |r| <= |feeds|
    ensures forall i :: 0 <= i < |r| ==> !IsBlank(r[i]) && r[i] in feeds
  {
    if |feeds| == 0 then []
    else (if !IsBlank(feeds[0]) then [feeds[0]] else []) + NonBlank(feeds[1..])
  }

  /** The filter as `generateRssBridgeLink` writes it: the first id is kept exactly when its trimmed text is
      not empty, and the rest are filtered the same way. */
  lemma NonBlankTrims(feeds: seq<string>)
    requires |feeds| > 0
    ensures NonBlank(feeds) == (if Trim(feeds[0]) != "" then [feeds[0]] else []) + NonBlank(feeds[1..])
  {
  }

  /** The filter commutes with concatenation and keeps a single id exactly when it is not blank:
      together these pin it down as "drop the blank ids, keep the rest in order". */
  lemma {:induction false} NonBlankAppend(a: seq<string>, b: seq<string>)
    ensures NonBlank(a + b) == NonBlank(a) + NonBlank(b)
  {
    if |a| == 0 {
      assert a + b == b;
    } else {
      assert (a + b)[0] == a[0] && (a + b)[1..] == a[1..] + b;
      NonBlankAppend(a[1..], b);
      var head := if !IsBlank(a[0]) then [a[0]] else [];
      assert NonBlank(a + b) == head + NonBlank(a[1..] + b);
      assert NonBlank(a) == head + NonBlank(a[1..]);
      assert head + (NonBlank(a[1..]) + NonBlank(b)) == head + NonBlank(a[1..]) + NonBlank(b);
    }
  }

  lemma NonBlankSingle(id: string)
    ensures NonBlank([id]) == if IsBlank(id) then [] else [id]
  {
    assert [id][1..] == [];
  }

  /** The name of the k-th feed parameter. */
  function FeedKey(k: nat): string {
    "feed_" + Decimal(k)
  }

  /** Distinct positions have distinct parameter names, none of which a fixed parameter uses, and
      every one of them passes through query parsing unchanged. */
  lemma FeedKeyInjective(j: nat, k: nat)
    ensures FeedKey(j) == FeedKey(k) <==> j == k
  {
    if FeedKey(j) == FeedKey(k) {
      assert Decimal(j) == FeedKey(j)[5..] && Decimal(k) == FeedKey(k)[5..];
      DecimalInjective(j, k);
    }
  }

  lemma FeedKeyPlain(k: nat)
    ensures IsPlainName(FeedKey(k))
  {
    var name := FeedKey(k);
    assert name[..5] == "feed_";
    forall i | 0 <= i < |name|
      ensures Percent.IsUriUnreserved(name[i])
    {
      if i >= 5 {
        assert name[i] == Decimal(k)[i - 5];
      }
    }
  }

  lemma FeedKeyNotFixed(k: nat)
    ensures forall i :: 0 <= i < |BaseParams| ==> BaseParams[i].0 != FeedKey(k)
    ensures forall i :: 0 <= i < |FormatParams| ==> FormatParams[i].0 != FeedKey(k)
  {
    var name := FeedKey(k);
    assert name[0] == 'f' && name[1] == 'e' && IsDigit(name[5]);
  }

  /** `&feed_k=<encodeURIComponent(channel feed URL)>` for each id, numbered from `first`: the
      mapped and joined `feedParams` of `generateRssBridgeLink`. */
  function FeedParams(ids: seq<string>, first: nat): string {
    if |ids| == 0 then ""
    else
      "&" + FeedKey(first) + "=" + Percent.EncodeURIComponent(YouTube.ChannelFeedUrl(ids[0]))
      + FeedParams(ids[1..], first + 1)
  }

  /** `generateRssBridgeLink`: the fixed base, one parameter per non-blank id, then `&format=Atom`. */
  function GenerateLink(feeds: seq<string>): (link: string)
    ensures |link| >= |BaseUrl| + |FormatSuffix|
    ensures link[..|BaseUrl|] == BaseUrl
    ensures link[|link| - |FormatSuffix|..] == FormatSuffix
  {
    Framed(BaseUrl, FeedParams(NonBlank(feeds), 1), FormatSuffix);
    BaseUrl + FeedParams(NonBlank(feeds), 1) + FormatSuffix
  }

  /** The feed parameters as name/value pairs, numbered from `first`. */
  function FeedPairs(ids: seq<string>, first: nat): (ps: seq<Pair>)
    ensures |ps| == |ids|
  {
    seq(|ids|, i requires 0 <= i < |ids| => (FeedKey(first + i), YouTube.ChannelFeedUrl(ids[i])))
  }

  /** The pairs a generated link carries in its query, in order. */
  function LinkParams(feeds: seq<string>): (ps: seq<Pair>)
    ensures |ps| == |NonBlank(feeds)| + 4
  {
    BaseParams + FeedPairs(NonBlank(feeds), 1) + FormatParams
  }

  lemma {:induction false} FeedParamsSerialize(ids: seq<string>, first: nat)
    ensures FeedParams(ids, first) == SerializeTail(FeedPairs(ids, first))
  {
    if |ids| > 0 {
      var ps := FeedPairs(ids, first);
      FeedParamsSerialize(ids[1..], first + 1);
      FeedPairsTail(ids, first);
      var key, value := FeedKey(first), Percent.EncodeURIComponent(YouTube.ChannelFeedUrl(ids[0]));
      var tail := SerializeTail(ps[1..]);
      assert FeedParams(ids, first) == "&" + key + "=" + value + tail;
      assert Component(ps[0]) == key + "=" + value;
      assert SerializeTail(ps) == "&" + Component(ps[0]) + tail;
      Regroup("&", key, "=", value, tail);
    }
  }

  lemma FeedPairsTail(ids: seq<string>, first: nat)
    requires |ids| > 0
    ensures FeedPairs(ids, first)[1..] == FeedPairs(ids[1..], first + 1)
  {
    var a, b := FeedPairs(ids, first)[1..], FeedPairs(ids[1..], first + 1);
    forall i | 0 <= i < |b|
      ensures a[i] == b[i]
    {
      assert ids[1..][i] == ids[i + 1];
    }
  }

  lemma Regroup(a: string, b: string, c: string, d: string, e: string)
    ensures a + b + c + d + e == a + (b + c + d) + e
  {
  }

  /** Serializing the three groups one after another, whatever they hold. */
  lemma SerializeGroups(prefix: string, base: seq<Pair>, middle: seq<Pair>, suffix: seq<Pair>)
    requires |base| > 0
    ensures prefix + Serialize(base) + SerializeTail(middle) + SerializeTail(suffix)
         == prefix + Serialize(base + middle + suffix)
  {
    var a, b, c := Serialize(base), SerializeTail(middle), SerializeTail(suffix);
    SerializeAppend(base + middle, suffix);
    SerializeAppend(base, middle);
    assert Serialize(base + middle + suffix) == a + b + c;
    Reassociate(prefix, a, b, c);
  }

  lemma Reassociate(p: string, a: string, b: string, c: string)
    ensures p + a + b + c == p + (a + b + c)
  {
  }

  /** A generated link is the bridge endpoint, `?`, and the serialization of its pairs. */
  lemma GenerateLinkSerializes(feeds: seq<string>)
    ensures GenerateLink(feeds) == BridgeEndpoint + "?" + Serialize(LinkParams(feeds))
  {
    var ids := NonBlank(feeds);
    FeedParamsSerialize(ids, 1);
    SerializeGroups(BridgeEndpoint + "?", BaseParams, FeedPairs(ids, 1), FormatParams);
  }

  predicate AllPlain(ps: seq<Pair>) {
    forall i :: 0 <= i < |ps| ==> IsPlainName(ps[i].0)
  }

  lemma FixedParamsPlain()
    ensures AllPlain(BaseParams) && AllPlain(FormatParams)
  {
    assert IsPlainName("action") && IsPlainName("bridge");
    assert IsPlainName("feed_name");
    assert IsPlainName("format");
  }

  lemma LinkParamsPlain(feeds: seq<string>)
    ensures AllPlain(LinkParams(feeds))
  {
    var feedPairs := FeedPairs(NonBlank(feeds), 1);
    FixedParamsPlain();
    FeedPairsPlain(NonBlank(feeds), 1);
    AllPlainAppend(BaseParams, feedPairs);
    AllPlainAppend(BaseParams + feedPairs, FormatParams);
  }

  lemma FeedPairsPlain(ids: seq<string>, first: nat)
    ensures AllPlain(FeedPairs(ids, first))
  {
    var ps := FeedPairs(ids, first);
    forall i | 0 <= i < |ps|
      ensures IsPlainName(ps[i].0)
    {
      FeedKeyPlain(first + i);
    }
  }

  lemma AllPlainAppend(a: seq<Pair>, b: seq<Pair>)
    requires AllPlain(a) && AllPlain(b)
    ensures AllPlain(a + b)
  {
    forall i | 0 <= i < |a + b|
      ensures IsPlainName((a + b)[i].0)
    {
      if i >= |a| {
        assert (a + b)[i] == b[i - |a|];
      }
    }
  }

  lemma EndpointHasNoMarks()
    ensures '?' !in BridgeEndpoint && '#' !in BridgeEndpoint
  {
  }

  /** Reading a generated link's query gives back exactly its pairs, whatever the ids hold:
      every value went through `encodeURIComponent`. */
  lemma SearchParamsOfLink(feeds: seq<string>)
    ensures Url.SearchParams(GenerateLink(feeds)) == LinkParams(feeds)
  {
    GenerateLinkSerializes(feeds);
    LinkParamsPlain(feeds);
    EndpointHasNoMarks();
    Url.SearchParamsOfSerialized(BridgeEndpoint, LinkParams(feeds));
  }

  /** Why pasting a link fails: `new URL` throws on the link itself, or on the value of
      `feed_<slot>`. Either way the slots are left as they were. */
  datatype LinkError = InvalidLink | InvalidFeedUrl(slot: nat)

  /** `new URL(feedUrl).searchParams.get("channel_id")`, with a missing parameter read as "":
      the value of the first `channel_id` pair of the URL's query. */
  function ChannelIdOf(feedUrl: string): (id: string)
    ensures id != "" ==> (YouTube.ChannelIdName, id) in Url.SearchParams(feedUrl)
    ensures (forall i :: 0 <= i < |Url.SearchParams(feedUrl)| ==> Url.SearchParams(feedUrl)[i].0 != YouTube.ChannelIdName)
            ==> id == ""
    ensures '?' !in feedUrl ==> id == ""
    ensures forall i :: FirstNamed(Url.SearchParams(feedUrl), YouTube.ChannelIdName, i) ==> id == Url.SearchParams(feedUrl)[i].1
  {
    var ps := Url.SearchParams(feedUrl);
    forall i | FirstNamed(ps, YouTube.ChannelIdName, i)
      ensures Get(ps, YouTube.ChannelIdName) == Some(ps[i].1)
    {
      GetFirst(ps, YouTube.ChannelIdName, i);
    }
    Get(ps, YouTube.ChannelIdName).GetOr("")
  }

  /** What slot k (counted from 1) receives: the channel id found in a non-empty `feed_k`, or "". */
  function SlotValue(params: seq<Pair>, k: nat): (value: string)
    ensures value != "" ==> var feedUrl := Get(params, FeedKey(k));
                            feedUrl.Some? && (FeedKey(k), feedUrl.value) in params && value == ChannelIdOf(feedUrl.value)
    ensures (forall i :: 0 <= i < |params| ==> params[i].0 != FeedKey(k)) ==> value == ""
    ensures Get(params, FeedKey(k)) == Some("") ==> value == ""
    ensures forall i :: FirstNamed(params, FeedKey(k), i) && params[i].1 != "" ==> value == ChannelIdOf(params[i].1)
  {
    forall i | FirstNamed(params, FeedKey(k), i)
      ensures Get(params, FeedKey(k)) == Some(params[i].1)
    {
      GetFirst(params, FeedKey(k), i);
    }
    match Get(params, FeedKey(k))
    case Some(feedUrl) => if feedUrl != "" then ChannelIdOf(feedUrl) else ""
    case None => ""
  }

  /** `feed_k` is present and non-empty but not a URL, so `new URL(feedParam)` throws. */
  predicate Rejects(params: seq<Pair>, isUrl: string -> bool, k: nat) {
    match Get(params, FeedKey(k))
    case Some(feedUrl) => feedUrl != "" && !isUrl(feedUrl)
    case None => false
  }

  /** The first slot from k to ten for which `rejects` holds. */
  function FirstFrom(rejects: nat -> bool, k: nat): (r: Option<nat>)
    ensures r.Some? ==> k <= r.value <= MaxFeeds && rejects(r.value)
                        && forall j :: k <= j < r.value ==> !rejects(j)
    ensures r.None? <==> forall j :: k <= j <= MaxFeeds ==> !rejects(j)
    decreases MaxFeeds + 1 - k
  {
    if k > MaxFeeds then None
    else if rejects(k) then Some(k)
    else FirstFrom(rejects, k + 1)
  }

  /** Two predicates that agree on slots 1 to 10 find the same first slot. */
  lemma {:induction false} SameFirst(rejects1: nat -> bool, rejects2: nat -> bool, k: nat)
    requires forall j :: 1 <= j <= MaxFeeds ==> rejects1(j) == rejects2(j)
    requires k >= 1
    ensures FirstFrom(rejects1, k) == FirstFrom(rejects2, k)
    decreases MaxFeeds + 1 - k
  {
    if k <= MaxFeeds {
      SameFirst(rejects1, rejects2, k + 1);
    }
  }

  /** The first slot from k to ten whose feed URL makes the reading throw. */
  function FirstRejected(params: seq<Pair>, isUrl: string -> bool, k: nat): (r: Option<nat>)
    ensures r.Some? ==> k <= r.value <= MaxFeeds && Rejects(params, isUrl, r.value)
                        && forall j :: k <= j < r.value ==> !Rejects(params, isUrl, j)
    ensures r.None? <==> forall j :: k <= j <= MaxFeeds ==> !Rejects(params, isUrl, j)
  {
    var rejects := (j: nat) => Rejects(params, isUrl, j);
    assert forall j: nat :: rejects(j) == Rejects(params, isUrl, j);
    FirstFrom(rejects, k)
  }

  lemma FirstRejectedHere(params: seq<Pair>, isUrl: string -> bool, k: nat)
    requires 1 <= k <= MaxFeeds && Rejects(params, isUrl, k)
    ensures FirstRejected(params, isUrl, k) == Some(k)
  {
  }

  lemma FirstRejectedPast(params: seq<Pair>, isUrl: string -> bool, k: nat)
    requires 1 <= k <= MaxFeeds && !Rejects(params, isUrl, k)
    ensures FirstRejected(params, isUrl, k) == FirstRejected(params, isUrl, k + 1)
  {
  }

  /** What reading a pasted link yields: an error when the link or one of the first ten feed
      URLs is not a URL, else ten slots, slot k holding the channel id of `feed_k`. */
  function ReadLink(link: string, isUrl: string -> bool): (r: Result<seq<string>, LinkError>)
    ensures r == Failure(InvalidLink) <==> !isUrl(link)
    ensures isUrl(link) ==>
              (r.Failure? <==> exists k :: 1 <= k <= MaxFeeds && Rejects(Url.SearchParams(link), isUrl, k))
    ensures r.Success? ==> |r.value| == MaxFeeds
  {
    if !isUrl(link) then Failure(InvalidLink)
    else
      ReadParams(Url.SearchParams(link), isUrl)
  }

  /** The slots after reading positions 1 to n: each non-empty value goes into its slot, an empty
      one leaves the slot as it was. */
  function FillSlots(value: nat -> string, n: nat): (slots: seq<string>)
    requires n <= MaxFeeds
    ensures |slots| == MaxFeeds
  {
    if n == 0 then EmptySlots()
    else
      var slots := FillSlots(value, n - 1);
      if value(n) != "" then slots[n - 1 := value(n)] else slots
  }

  /** Slot j holds the value of position j + 1 once read, and is empty before. */
  lemma {:induction false} FillSlotsAt(value: nat -> string, n: nat, j: nat)
    requires n <= MaxFeeds && j < MaxFeeds
    ensures FillSlots(value, n)[j] == if j < n then value(j + 1) else ""
  {
    if n > 0 {
      FillSlotsAt(value, n - 1, j);
    }
  }

  /** The slots after reading `feed_1` to `feed_n`. */
  function Filled(params: seq<Pair>, n: nat): (slots: seq<string>)
    requires n <= MaxFeeds
    ensures |slots| == MaxFeeds
  {
    FillSlots((k: nat) => SlotValue(params, k), n)
  }

  lemma FilledAt(params: seq<Pair>, n: nat, j: nat)
    requires n <= MaxFeeds && j < MaxFeeds
    ensures Filled(params, n)[j] == if j < n then SlotValue(params, j + 1) else ""
  {
    var value := (k: nat) => SlotValue(params, k);
    assert value(j + 1) == SlotValue(params, j + 1);
    FillSlotsAt(value, n, j);
  }

  lemma FilledNext(params: seq<Pair>, n: nat)
    requires n < MaxFeeds
    ensures var value := SlotValue(params, n + 1);
            Filled(params, n + 1) == if value != "" then Filled(params, n)[n := value] else Filled(params, n)
  {
    var value := (k: nat) => SlotValue(params, k);
    assert value(n + 1) == SlotValue(params, n + 1);
  }

  /** `parseRssBridgeLink`: ten empty slots, then for i = 1 to 10 the channel id of `feed_i`
      goes into slot i - 1 when both are non-empty; the first invalid URL throws. */
  method ParseLink(link: string, isUrl: string -> bool) returns (r: Result<seq<string>, LinkError>)
    ensures r == ReadLink(link, isUrl)
  {
    if !isUrl(link) {
      return Failure(InvalidLink);
    }
    r := ParseParams(Url.SearchParams(link), isUrl);
  }

  /** What reading yields once the link's query is parsed: a failure at the first rejected slot,
      otherwise every slot filled with its value. */
  function ReadParams(params: seq<Pair>, isUrl: string -> bool): (r: Result<seq<string>, LinkError>)
    ensures r.Success? <==> forall k :: 1 <= k <= MaxFeeds ==> !Rejects(params, isUrl, k)
    ensures r.Failure? ==> r.error.InvalidFeedUrl? && 1 <= r.error.slot <= MaxFeeds
                           && Rejects(params, isUrl, r.error.slot)
                           && forall k :: 1 <= k < r.error.slot ==> !Rejects(params, isUrl, k)
    ensures r.Success? ==> |r.value| == MaxFeeds
                           && forall j :: 0 <= j < MaxFeeds ==> r.value[j] == SlotValue(params, j + 1)
  {
    FilledAll(params);
    match FirstRejected(params, isUrl, 1)
    case Some(k) => Failure(InvalidFeedUrl(k))
    case None => Success(Filled(params, MaxFeeds))
  }

  /** Once all ten positions are read, every slot holds its position's value. */
  lemma FilledAll(params: seq<Pair>)
    ensures forall j :: 0 <= j < MaxFeeds ==> Filled(params, MaxFeeds)[j] == SlotValue(params, j + 1)
  {
    forall j | 0 <= j < MaxFeeds
      ensures Filled(params, MaxFeeds)[j] == SlotValue(params, j + 1)
    {
      FilledAt(params, MaxFeeds, j);
    }
  }

  /** The loop of `parseRssBridgeLink` over the parsed query. */
  method ParseParams(params: seq<Pair>, isUrl: string -> bool) returns (r: Result<seq<string>, LinkError>)
    ensures r == ReadParams(params, isUrl)
  {
    var slots := EmptySlots();
    var i := 1;
    while i <= MaxFeeds
      invariant 1 <= i <= MaxFeeds + 1
      invariant slots == Filled(params, i - 1)
      invariant FirstRejected(params, isUrl, 1) == FirstRejected(params, isUrl, i)
    {
      FilledNext(params, i - 1);
      var feedParam := Get(params, FeedKey(i));
      if feedParam.Some? && feedParam.value != "" {
        if !isUrl(feedParam.value) {
          FirstRejectedHere(params, isUrl, i);
          return Failure(InvalidFeedUrl(i));
        }
        var channelId := ChannelIdOf(feedParam.value);
        if channelId != "" {
          slots := slots[i - 1 := channelId];
        }
      }
      FirstRejectedPast(params, isUrl, i);
      i := i + 1;
    }
    return Success(slots);
  }

  /** The "Parse Link" button: the slots become the ones read, or stay as they were when reading
      throws. */
  function ApplyPastedLink(feeds: seq<string>, link: string, isUrl: string -> bool): (r: seq<string>)
    ensures r == feeds || |r| == MaxFeeds
    ensures !isUrl(link) ==> r == feeds
    ensures (exists k :: 1 <= k <= MaxFeeds && Rejects(Url.SearchParams(link), isUrl, k)) ==> r == feeds
    ensures ReadLink(link, isUrl).Success? ==> r == ReadLink(link, isUrl).value
  {
    match ReadLink(link, isUrl)
    case Success(slots) => slots
    case Failure(_) => feeds
  }

  /** The ids the round trip is stated for: RFC 3986 unreserved characters only, which neither
      `encodeURIComponent`, URL parsing nor query parsing alter. */
  predicate IsChannelId(id: string) {
    forall i :: 0 <= i < |id| ==> Percent.IsUnreserved(id[i])
  }

  /** The first ten ids followed by empty slots up to ten. */
  function Padded(ids: seq<string>): (slots: seq<string>)
    ensures |slots| == MaxFeeds
  {
    seq(MaxFeeds, i requires 0 <= i < MaxFeeds => if i < |ids| then ids[i] else "")
  }

  /** Among the feed pairs numbered from `first`, `feed_k` names exactly the one at k - first. */
  lemma GetFeedPairs(ids: seq<string>, first: nat, k: nat)
    ensures Get(FeedPairs(ids, first), FeedKey(k))
         == if first <= k < first + |ids| then Some(YouTube.ChannelFeedUrl(ids[k - first])) else None
  {
    var ps, key := FeedPairs(ids, first), FeedKey(k);
    forall j | 0 <= j < |ps|
      ensures ps[j].0 == key <==> j == k - first
    {
      FeedKeyInjective(first + j, k);
    }
    GetIndexed(ps, key, k - first);
  }

  /** In a generated link, `feed_k` holds the feed URL of the k-th non-blank id, and is missing
      past the last one. */
  lemma GetFeedKey(feeds: seq<string>, k: nat)
    requires k >= 1
    ensures Get(LinkParams(feeds), FeedKey(k))
         == if k <= |NonBlank(feeds)| then Some(YouTube.ChannelFeedUrl(NonBlank(feeds)[k - 1])) else None
  {
    GetLinkFeedPairs(NonBlank(feeds), k);
    GetFeedPairsFromOne(NonBlank(feeds), k);
  }

  /** The fixed parameters never answer a `feed_k` lookup. */
  lemma GetLinkFeedPairs(ids: seq<string>, k: nat)
    ensures Get(BaseParams + FeedPairs(ids, 1) + FormatParams, FeedKey(k)) == Get(FeedPairs(ids, 1), FeedKey(k))
  {
    FeedKeyNotFixed(k);
    GetMiddle(BaseParams, FeedPairs(ids, 1), FormatParams, FeedKey(k));
  }

  lemma GetFeedPairsFromOne(ids: seq<string>, k: nat)
    requires k >= 1
    ensures Get(FeedPairs(ids, 1), FeedKey(k))
         == if k <= |ids| then Some(YouTube.ChannelFeedUrl(ids[k - 1])) else None
  {
    GetFeedPairs(ids, 1, k);
  }

  lemma ChannelIdNamePlain()
    ensures IsPlainName(YouTube.ChannelIdName)
  {
  }

  /** A query of one plain name, `=` and a value of unreserved characters reads back as that
      single pair. */
  lemma ParseSingle(name: string, value: string)
    requires IsPlainName(name)
    requires forall i :: 0 <= i < |value| ==> Percent.IsUriUnreserved(value[i])
    ensures Get(Parse(Encode(name + "=" + value)), name) == Some(value)
  {
    var p := (name, value);
    Percent.EncodeUnreservedIdentity(value);
    assert Serialize([p]) == name + "=" + value;
    ParseSerialize([p]);
    GetFirst([p], name, 0);
  }

  /** The channel id read back from a channel's feed URL is the id it was written with. */
  lemma ChannelIdOfFeedUrl(id: string)
    requires IsChannelId(id)
    ensures ChannelIdOf(YouTube.ChannelFeedUrl(id)) == id
  {
    assert forall i :: 0 <= i < |id| ==> id[i] != '#' && Percent.IsUriUnreserved(id[i]);
    ChannelIdNamePlain();
    ParseSingle(YouTube.ChannelIdName, id);
  }

  /** The ids a round trip is stated for: the non-blank ones are plain channel ids whose feed
      URLs parse. */
  predicate RoundTrips(feeds: seq<string>, isUrl: string -> bool) {
    forall i :: 0 <= i < |feeds| && !IsBlank(feeds[i]) ==>
      IsChannelId(feeds[i]) && isUrl(YouTube.ChannelFeedUrl(feeds[i]))
  }

  /** Slot k of a generated link reads back as the k-th non-blank id, or as "" past the last. */
  lemma LinkSlot(feeds: seq<string>, isUrl: string -> bool, k: nat)
    requires RoundTrips(feeds, isUrl)
    requires 1 <= k <= MaxFeeds
    ensures !Rejects(LinkParams(feeds), isUrl, k)
    ensures SlotValue(LinkParams(feeds), k) == Padded(NonBlank(feeds))[k - 1]
  {
    var ids := NonBlank(feeds);
    GetFeedKey(feeds, k);
    if k <= |ids| {
      var id := ids[k - 1];
      var j :| 0 <= j < |feeds| && feeds[j] == id;
      ChannelIdOfFeedUrl(id);
      assert id != "";
    }
  }

  /** A link reads as the given slots when no slot is rejected and each holds its value. */
  lemma ReadLinkAll(link: string, isUrl: string -> bool, slots: seq<string>)
    requires isUrl(link) && |slots| == MaxFeeds
    requires forall k :: 1 <= k <= MaxFeeds ==>
               !Rejects(Url.SearchParams(link), isUrl, k) && SlotValue(Url.SearchParams(link), k) == slots[k - 1]
    ensures ReadLink(link, isUrl) == Success(slots)
  {
    var params := Url.SearchParams(link);
    assert FirstRejected(params, isUrl, 1) == None;
    var filled := Filled(params, MaxFeeds);
    forall j | 0 <= j < MaxFeeds
      ensures filled[j] == slots[j]
    {
      FilledAt(params, MaxFeeds, j);
    }
    assert filled == slots;
  }

  /** Copying the link and pasting it back yields the non-blank ids in order, padded with empty
      slots to ten, as long as the ids are plain channel ids and every URL involved parses. Ids
      past the tenth are lost. */
  lemma LinkRoundTrip(feeds: seq<string>, isUrl: string -> bool)
    requires RoundTrips(feeds, isUrl)
    requires isUrl(GenerateLink(feeds))
    ensures ReadLink(GenerateLink(feeds), isUrl) == Success(Padded(NonBlank(feeds)))
  {
    var link := GenerateLink(feeds);
    SearchParamsOfLink(feeds);
    forall k | 1 <= k <= MaxFeeds
      ensures !Rejects(Url.SearchParams(link), isUrl, k)
              && SlotValue(Url.SearchParams(link), k) == Padded(NonBlank(feeds))[k - 1]
    {
      LinkSlot(feeds, isUrl, k);
    }
    ReadLinkAll(link, isUrl, Padded(NonBlank(feeds)));
  }

  /** Pasting a copied link fills the slots with its ids, whatever they held before. */
  lemma PasteCopiedLink(feeds: seq<string>, before: seq<string>, isUrl: string -> bool)
    requires RoundTrips(feeds, isUrl)
    requires isUrl(GenerateLink(feeds))
    ensures ApplyPastedLink(before, GenerateLink(feeds), isUrl) == Padded(NonBlank(feeds))
  {
    LinkRoundTrip(feeds, isUrl);
  }

  lemma {:induction false} NonBlankKeepsAll(ids: seq<string>)
    requires forall i :: 0 <= i < |ids| ==> !IsBlank(ids[i])
    ensures NonBlank(ids) == ids
  {
    if |ids| > 0 {
      NonBlankSingle(ids[0]);
      NonBlankAppend([ids[0]], ids[1..]);
      NonBlankKeepsAll(ids[1..]);
      assert ids == [ids[0]] + ids[1..];
    }
  }

  lemma {:induction false} NonBlankDropsBlank(slots: seq<string>)
    requires forall i :: 0 <= i < |slots| ==> IsBlank(slots[i])
    ensures NonBlank(slots) == []
  {
    if |slots| > 0 {
      NonBlankDropsBlank(slots[1..]);
    }
  }

  lemma PaddedSplits(ids: seq<string>)
    requires |ids| <= MaxFeeds
    ensures Padded(ids) == ids + Empties(MaxFeeds - |ids|)
  {
  }

  /** Padding at most ten non-blank ids and filtering the blanks out again gives them back. */
  lemma NonBlankPadded(ids: seq<string>)
    requires |ids| <= MaxFeeds
    requires forall i :: 0 <= i < |ids| ==> !IsBlank(ids[i])
    ensures NonBlank(Padded(ids)) == ids
  {
    var empties := Empties(MaxFeeds - |ids|);
    PaddedSplits(ids);
    NonBlankAppend(ids, empties);
    NonBlankKeepsAll(ids);
    NonBlankDropsBlank(empties);
    assert ids + [] == ids;
  }

  /** Copy, paste, copy: with at most ten non-blank ids the second link is the first. */
  lemma CopyPasteCopy(feeds: seq<string>, before: seq<string>, isUrl: string -> bool)
    requires RoundTrips(feeds, isUrl)
    requires isUrl(GenerateLink(feeds))
    requires |NonBlank(feeds)| <= MaxFeeds
    ensures GenerateLink(ApplyPastedLink(before, GenerateLink(feeds), isUrl)) == GenerateLink(feeds)
  {
    PasteCopiedLink(feeds, before, isUrl);
    NonBlankPadded(NonBlank(feeds));
  }

  /** Only `feed_1` to `feed_10` matter: two links that agree on those read the same, whatever
      `feed_11` and beyond or any other parameter hold. */
  lemma ReadIgnoresOtherParams(link1: string, link2: string, isUrl: string -> bool)
    requires isUrl(link1) == isUrl(link2)
    requires forall k :: 1 <= k <= MaxFeeds ==>
               Get(Url.SearchParams(link1), FeedKey(k)) == Get(Url.SearchParams(link2), FeedKey(k))
    ensures ReadLink(link1, isUrl) == ReadLink(link2, isUrl)
  {
    if isUrl(link1) {
      ReadParamsAgree(Url.SearchParams(link1), Url.SearchParams(link2), isUrl);
    }
  }

  lemma ReadParamsAgree(p1: seq<Pair>, p2: seq<Pair>, isUrl: string -> bool)
    requires forall k :: 1 <= k <= MaxFeeds ==> Get(p1, FeedKey(k)) == Get(p2, FeedKey(k))
    ensures ReadParams(p1, isUrl) == ReadParams(p2, isUrl)
  {
    forall k | 1 <= k <= MaxFeeds
      ensures Rejects(p1, isUrl, k) == Rejects(p2, isUrl, k) && SlotValue(p1, k) == SlotValue(p2, k)
    {
    }
    SameFirstRejected(p1, p2, isUrl);
    forall j | 0 <= j < MaxFeeds
      ensures Filled(p1, MaxFeeds)[j] == Filled(p2, MaxFeeds)[j]
    {
      FilledAt(p1, MaxFeeds, j);
      FilledAt(p2, MaxFeeds, j);
    }
    assert Filled(p1, MaxFeeds) == Filled(p2, MaxFeeds);
  }

  lemma SameFirstRejected(p1: seq<Pair>, p2: seq<Pair>, isUrl: string -> bool)
    requires forall j :: 1 <= j <= MaxFeeds ==> Rejects(p1, isUrl, j) == Rejects(p2, isUrl, j)
    ensures FirstRejected(p1, isUrl, 1) == FirstRejected(p2, isUrl, 1)
  {
    SameFirst((j: nat) => Rejects(p1, isUrl, j), (j: nat) => Rejects(p2, isUrl, j), 1);
  }

  /** Every `feed_k` value is escaped: it holds no raw `&`, `=`, `?`, `#` or `/`. */
  lemma FeedValueEscaped(id: string)
    ensures var v := Percent.EncodeURIComponent(YouTube.ChannelFeedUrl(id));
            '&' !in v && '=' !in v && '?' !in v && '#' !in v && '/' !in v
  {
    EscapedHasNoDelimiters(YouTube.ChannelFeedUrl(id));
  }

  lemma EscapedHasNoDelimiters(s: string)
    ensures var v := Percent.EncodeURIComponent(s);
            '&' !in v && '=' !in v && '?' !in v && '#' !in v && '/' !in v
  {
    NoDelimiters(Percent.EncodeURIComponent(s));
  }

  lemma NoDelimiters(v: string)
    requires forall i :: 0 <= i < |v| ==> v[i] == '%' || Percent.IsUriUnreserved(v[i])
    ensures '&' !in v && '=' !in v && '?' !in v && '#' !in v && '/' !in v
  {
  }

  lemma Framed(a: string, b: string, c: string)
    ensures (a + b + c)[..|a|] == a && (a + b + c)[|a + b + c| - |c|..] == c
    ensures a + b + c == a + c <==> b == ""
  {
    if a + b + c == a + c {
      assert |b| == 0;
    }
  }

  lemma FormatSuffixText()
    ensures FormatSuffix == "&format=Atom"
  {
    Percent.EncodeUnreservedIdentity("Atom");
  }

  /** The link carries `feed_` parameters exactly when some id is not blank: an all-blank list
      gives the base followed by `&format=Atom` and nothing between. */
  lemma GenerateLinkBare(feeds: seq<string>)
    ensures GenerateLink(feeds) == BaseUrl + FormatSuffix <==> forall i :: 0 <= i < |feeds| ==> IsBlank(feeds[i])
  {
    var ids := NonBlank(feeds);
    Framed(BaseUrl, FeedParams(ids, 1), FormatSuffix);
    if forall i :: 0 <= i < |feeds| ==> IsBlank(feeds[i]) {
      NonBlankDropsBlank(feeds);
    } else {
      var i :| 0 <= i < |feeds| && !IsBlank(feeds[i]);
      NonBlankHasEvery(feeds, i);
      assert |FeedParams(ids, 1)| > 0;
    }
  }

  /** The filter keeps something when some id is not blank. */
  lemma {:induction false} NonBlankHasEvery(feeds: seq<string>, i: nat)
    requires i < |feeds| && !IsBlank(feeds[i])
    ensures feeds[i] in NonBlank(feeds)
  {
    if i > 0 {
      NonBlankHasEvery(feeds[1..], i - 1);
    }
  }
}
