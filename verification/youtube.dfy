/** The two YouTube URL templates the editor fills in with a channel id. */
module YouTube {
  import Url

  const FeedEndpoint := "https://www.youtube.com/feeds/videos.xml"
  const ChannelPagePrefix := "https://www.youtube.com/channel/"
  /** The query parameter that carries the channel id. */
  const ChannelIdName := "channel_id"

  /** The channel's Atom feed, `.../videos.xml?channel_id=<id>`, with the id appended unescaped:
      its query is `channel_id=` followed by the id, up to any `#` the id holds. */
  function ChannelFeedUrl(channelId: string): (url: string)
    ensures '#' !in channelId ==> Url.Query(url) == ChannelIdName + "=" + channelId
    ensures |url| > |channelId|
    ensures |url| > |FeedEndpoint| && url[..|FeedEndpoint| + 1] == FeedEndpoint + "?"
  {
    FeedUrlQuery(channelId);
    FeedEndpoint + "?" + (ChannelIdName + "=" + channelId)
  }

  /** The whole id, `#` included, ends the feed URL as it was given. */
  lemma ChannelFeedUrlEndsWithId(channelId: string)
    ensures var url := ChannelFeedUrl(channelId); url[|url| - |channelId|..] == channelId
  {
  }

  lemma FeedEndpointHasNoMarks()
    ensures '?' !in FeedEndpoint && '#' !in FeedEndpoint
  {
  }

  lemma FeedUrlQuery(channelId: string)
    ensures '#' !in channelId ==> Url.Query(FeedEndpoint + "?" + (ChannelIdName + "=" + channelId)) == ChannelIdName + "=" + channelId
  {
    FeedEndpointHasNoMarks();
    Url.QueryAfterMarkWhen(FeedEndpoint, ChannelIdName + "=" + channelId);
  }

  /** The channel's page, used as its thumbnail link: the fixed prefix, then the id unescaped. */
  function ChannelPageUrl(channelId: string): (url: string)
    ensures |url| == |ChannelPagePrefix| + |channelId|
    ensures url[..|ChannelPagePrefix|] == ChannelPagePrefix && url[|ChannelPagePrefix|..] == channelId
  {
    ChannelPagePrefix + channelId
  }

  /** Distinct channels have distinct pages. */
  lemma ChannelPageUrlInjective(id1: string, id2: string)
    ensures ChannelPageUrl(id1) == ChannelPageUrl(id2) <==> id1 == id2
  {
  }
}
