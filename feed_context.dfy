/**
 * Feed intent and feed context: the keyword test that decides whether a
 * chat message asks about the feed, and the text block listing recent items
 * that is then added to the message for the model.
 */
module FeedContext {
  import opened Text
  import opened Decimal
  import opened NewsStore

  const FeedKeywords: seq<string> := [
    "feed", "recent", "latest", "what's been added", "what has been added",
    "show me", "show items", "see items", "submitted", "in the pipeline",
    "so far", "what's there", "what is there", "list", "entries"
  ]

  /** How many items the chat endpoint puts in the feed context. */
  const FeedLimit: int := 15

  /** Python's `any(kw in hay for kw in kws)`. */
  function AnyInfix(kws: seq<string>, hay: string): (r: bool)
    ensures r ==> exists k :: 0 <= k < |kws| && IsInfix(kws[k], hay)
    ensures (exists k :: 0 <= k < |kws| && IsInfix(kws[k], hay)) ==> r
    decreases |kws|
  {
    if kws == [] then false
    else if IsInfix(kws[0], hay) then true
    else
      var rest := AnyInfix(kws[1..], hay);
      assert forall k :: 1 <= k < |kws| ==> kws[k] == kws[1..][k - 1];
      rest
  }

  /** `_wants_feed(message)`. */
  function WantsFeed(message: string): bool
  {
    AnyInfix(FeedKeywords, Lower(message))
  }

  /** A message asks about the feed exactly when some keyword occurs in its lower-cased text. */
  lemma WantsFeedSpec(message: string)
    ensures WantsFeed(message) ==>
      exists k :: 0 <= k < |FeedKeywords| && exists i: nat :: InfixAt(FeedKeywords[k], Lower(message), i)
    ensures (exists k :: 0 <= k < |FeedKeywords| && exists i: nat :: InfixAt(FeedKeywords[k], Lower(message), i)) ==>
      WantsFeed(message)
  {
    if WantsFeed(message) {
      var k :| 0 <= k < |FeedKeywords| && IsInfix(FeedKeywords[k], Lower(message));
    }
    if exists k :: 0 <= k < |FeedKeywords| && exists i: nat :: InfixAt(FeedKeywords[k], Lower(message), i) {
      var k :| 0 <= k < |FeedKeywords| && exists i: nat :: InfixAt(FeedKeywords[k], Lower(message), i);
      assert IsInfix(FeedKeywords[k], Lower(message));
    }
  }

  /** The keyword test is a substring test: a word that merely contains "list" is enough. */
  lemma KeywordInsideWord(message: string)
    requires message == "Specialist"
    ensures WantsFeed(message)
  {
    var low := Lower(message);
    assert LowerChar('S') == 's';
    assert low == "specialist";
    assert low[6..10] == FeedKeywords[13];
    assert InfixAt(FeedKeywords[13], low, 6);
    WantsFeedSpec(message);
  }

  const EmptyFeed: string := "FEED DATA: No items have been saved yet."

  function Header(n: nat): string
  {
    "FEED DATA — " + IntToString(n) + " most recent item(s):"
  }

  /** The line for the item numbered `i`; it starts with a newline of its own. */
  function Entry(i: int, item: Row): string
  {
    "\n[" + IntToString(i) + "] Added by " + item.submitterName + " on " + Prefix(item.createdAt, 10)
    + "\n    URL: " + item.url
    + "\n    Blurb: " + item.agreedText
  }

  /** The entry lines for `items`, numbered from `from`. */
  function EntryLines(items: seq<Row>, from: int): seq<string>
  {
    seq(|items|, k requires 0 <= k < |items| => Entry(from + k, items[k]))
  }

  /** The lines `_build_feed_context` collects for `items`, the header first. */
  function Lines(items: seq<Row>): seq<string>
  {
    [Header(|items|)] + EntryLines(items, 1)
  }

  /** `_build_feed_context` on the items `get_feed` returned. */
  function FeedText(items: seq<Row>): string
  {
    if items == [] then EmptyFeed else Join("\n", Lines(items))
  }

  /** The lines `ls` written one after another, each after a newline. */
  function Prefixed(ls: seq<string>): string
    decreases |ls|
  {
    if ls == [] then "" else "\n" + ls[0] + Prefixed(ls[1..])
  }

  lemma {:induction false} PrefixedSnoc(ls: seq<string>, l: string)
    ensures Prefixed(ls + [l]) == Prefixed(ls) + "\n" + l
    decreases |ls|
  {
    if ls == [] {
      assert Prefixed([l]) == "\n" + l + Prefixed([]);
    } else {
      assert (ls + [l])[1..] == ls[1..] + [l];
      PrefixedSnoc(ls[1..], l);
    }
  }

  /** `"\n".join([first] + ls)` writes each of `ls` after a newline. */
  lemma {:induction false} JoinPrefixed(first: string, ls: seq<string>)
    ensures Join("\n", [first] + ls) == first + Prefixed(ls)
    decreases |ls|
  {
    if ls == [] {
      assert [first] + ls == [first];
    } else {
      var init := ls[..|ls| - 1];
      var last := ls[|ls| - 1];
      assert ls == init + [last];
      assert [first] + ls == ([first] + init) + [last];
      JoinSnoc("\n", [first] + init, last);
      JoinPrefixed(first, init);
      PrefixedSnoc(init, last);
    }
  }

  /**
   * With no items the context is the fixed "nothing saved" line. With `n`
   * items it is the header naming `n`, then entries numbered 1 to `n` for
   * the items in the order given, each after a newline.
   */
  lemma FeedTextSpec(items: seq<Row>)
    ensures items == [] ==> FeedText(items) == EmptyFeed
    ensures items != [] ==> FeedText(items) == Header(|items|) + Prefixed(EntryLines(items, 1))
    ensures |EntryLines(items, 1)| == |items|
    ensures forall k :: 0 <= k < |items| ==> EntryLines(items, 1)[k] == Entry(k + 1, items[k])
  {
    JoinPrefixed(Header(|items|), EntryLines(items, 1));
  }

  /** `_build_feed_context`, given the items `get_feed` returned: the lines are collected in a loop. */
  method BuildFeedContext(items: seq<Row>) returns (text: string)
    ensures text == FeedText(items)
  {
    if items == [] {
      return EmptyFeed;
    }
    var lines := [Header(|items|)];
    var i := 0;
    while i < |items|
      invariant 0 <= i <= |items|
      invariant lines == Lines(items)[..i + 1]
    {
      lines := lines + [Entry(i + 1, items[i])];
      i := i + 1;
    }
    assert lines == Lines(items);
    text := Join("\n", lines);
  }
}
