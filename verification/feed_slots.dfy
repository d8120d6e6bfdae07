/** The editor's list of channel-id slots and the three edits its controls make to it. The list
    holds at most ten slots; every edit keeps it so. */
module FeedSlots {

  /** The most slots the editor shows and the bridge link is read back into. */
  const MaxFeeds: nat := 10

  predicate WithinLimit(feeds: seq<string>) {
    |feeds| <= MaxFeeds
  }

  /** Empty slots, n of them. */
  function Empties(n: nat): (slots: seq<string>)
    ensures |slots| == n && forall i :: 0 <= i < n ==> slots[i] == ""
  {
    seq(n, _ => "")
  }

  /** The list the editor starts with and `parseRssBridgeLink` fills: ten empty slots. */
  function EmptySlots(): (r: seq<string>)
    ensures |r| == MaxFeeds && forall i :: 0 <= i < |r| ==> r[i] == ""
  {
    Empties(MaxFeeds)
  }

  /** `handleFeedChange`: slot `index` takes the typed value; every other slot and the length stay. */
  function ChangeFeed(feeds: seq<string>, index: nat, value: string): (r: seq<string>)
    requires index < |feeds|
    ensures |r| == |feeds| && r[index] == value
    ensures forall j :: 0 <= j < |feeds| && j != index ==> r[j] == feeds[j]
    ensures WithinLimit(feeds) ==> WithinLimit(r)
  {
    feeds[index := value]
  }

  /** `addFeed`: one more empty slot at the end, unless ten are already there. */
  function AddFeed(feeds: seq<string>): (r: seq<string>)
    ensures |feeds| < MaxFeeds ==> |r| == |feeds| + 1 && r[|feeds|] == ""
    ensures |feeds| >= MaxFeeds ==> r == feeds
    ensures r[..|feeds|] == feeds
    ensures WithinLimit(feeds) ==> WithinLimit(r)
  {
    if |feeds| < MaxFeeds then feeds + [""] else feeds
  }

  /** The slots of `feeds` whose position, counted from `offset`, is not `index`, in order:
      the `filter((_, i) => i !== index)` of `removeFeed`. */
  function KeepOthers(feeds: seq<string>, index: int, offset: nat): (r: seq<string>)
    ensures offset <= index < offset + |feeds| ==>
              |r| == |feeds| - 1
              && (forall j :: 0 <= j < index - offset ==> r[j] == feeds[j])
              && (forall j :: index - offset <= j < |r| ==> r[j] == feeds[j + 1])
    ensures !(offset <= index < offset + |feeds|) ==> r == feeds
  {
    if |feeds| == 0 then []
    else (if offset == index then [] else [feeds[0]]) + KeepOthers(feeds[1..], index, offset + 1)
  }

  /** `removeFeed`: slot `index` goes, later slots move down one place; an index outside the list
      changes nothing. */
  function RemoveFeed(feeds: seq<string>, index: int): (r: seq<string>)
    ensures 0 <= index < |feeds| ==> |r| == |feeds| - 1 && r == feeds[..index] + feeds[index + 1..]
    ensures !(0 <= index < |feeds|) ==> r == feeds
    ensures WithinLimit(feeds) ==> WithinLimit(r)
  {
    KeepOthers(feeds, index, 0)
  }

  /** Adding a slot and removing the new last one gives back the list. */
  lemma RemoveUndoesAdd(feeds: seq<string>)
    requires |feeds| < MaxFeeds
    ensures RemoveFeed(AddFeed(feeds), |feeds|) == feeds
  {
  }
}
