/** `generate_thread`: validate the requested length, fetch the page, pick the title and the
    text to summarise, summarise it, cut the summary into parts and number them as tweets.
    Fetching is not modelled as code: its outcome is a parameter, as is the language model's
    reply. */
module ThreadWriter {
  import opened PyStr
  import opened Wrappers
  import Chunker
  import Summarizer

  /** The accepted range of `max_tweets`. */
  const MinTweets: int := 3
  const MaxTweets: int := 20
  /** The summary length `generate_thread` asks the summariser for. */
  const SummaryWords: int := 300

  /** The ten markers, one code point each, used in turn. */
  const Palette: seq<char> := ['\U{1F680}', '\U{1F4A1}', '\U{1F4CC}', '\U{1F50D}', '\U{1F525}',
                               '\U{1F4D8}', '\U{2705}', '\U{1F31F}', '\U{1F3AF}', '\U{1F9E0}']

  /** What follows the title in the first tweet. */
  const HookSuffix: string := " \U{2013} here\U{2019}s what you\U{2019}ll learn:"

  /** What `fetch_content` returns: the page title, its description and its text. */
  datatype Page = Page(title: string, description: string, content: string)

  /** Why no thread was produced: `max_tweets` out of range (the `ValueError`), or the fetch
      raised. */
  datatype Error = InvalidMaxTweets | FetchFailed(reason: string)

  // ---------------------------------------------------------------------------------------
  // The tweets

  /** The marker of tweet `i` (counted from 1). */
  function Emoji(i: int): char
    requires 1 <= i
  {
    Palette[(i - 1) % |Palette|]
  }

  /** `f"{emoji} {i}/{max_tweets} "`. */
  function Header(i: int, total: int): string
    requires 1 <= i
  {
    [Emoji(i)] + " " + NatToString(i) + "/" + IntToString(total) + " "
  }

  /** What follows the header of tweet `i`: for the first tweet the stripped title, the hook
      and a line break, then the stripped part. */
  function Body(i: int, title: string, part: string): string {
    if i == 1 then Strip(title) + HookSuffix + "\n" + Strip(part) else Strip(part)
  }

  /** Tweet `i` of `total`: its header, then its body. */
  function Tweet(i: int, total: int, title: string, part: string): string
    requires 1 <= i
  {
    Header(i, total) + Body(i, title, part)
  }

  /** The serial number written in a tweet: the digits after the marker and the space. */
  function SerialOf(t: string): nat {
    if |t| < 2 then 0 else DecimalValue(t[2..DigitEnd(t, 2)])
  }

  /** One tweet per part, numbered from 1. */
  function Tweets(parts: seq<string>, total: int, title: string): seq<string> {
    seq(|parts|, k requires 0 <= k < |parts| => Tweet(k + 1, total, title, parts[k]))
  }

  /** The body of the formatting loop of `generate_thread`: tweet `i` for `part`. */
  method FormatTweet(i: int, total: int, title: string, part: string) returns (tweet: string)
    requires 1 <= i
    ensures tweet == Tweet(i, total, title, part)
  {
    var header := Header(i, total);
    if i == 1 {
      var hook := Strip(title) + HookSuffix;
      var body := Strip(part);
      tweet := header + (hook + "\n" + body);
    } else {
      tweet := header + Strip(part);
    }
  }

  /** The formatting loop of `generate_thread`: `enumerate(parts, start=1)`. */
  method FormatTweets(parts: seq<string>, total: int, title: string) returns (tweets: seq<string>)
    ensures tweets == Tweets(parts, total, title)
  {
    tweets := [];
    for k := 0 to |parts|
      invariant tweets == Tweets(parts, total, title)[..k]
    {
      var tweet := FormatTweet(k + 1, total, title, parts[k]);
      ghost var all := Tweets(parts, total, title);
      assert all[k] == tweet;
      assert all[..k + 1] == all[..k] + [tweet];
      tweets := tweets + [tweet];
    }
  }

  /** In a string that starts with a marker, a space, a run of digits and `/`, the run of digits
      is read back whole. */
  lemma {:induction false} DigitsAfterMarker(t: string, h: string, e: char, d: string, x: string,
                                             rest: string)
    requires AllDigits(d)
    requires h == [e] + " " + d + "/" + x + " "
    requires t == h + rest
    ensures 2 + |d| < |t| && DigitEnd(t, 2) == 2 + |d| && t[2..2 + |d|] == d
  {
    forall k | 2 <= k < 2 + |d| ensures '0' <= t[k] <= '9' && t[k] == d[k - 2] {
      assert t[k] == h[k] == d[k - 2];
    }
    assert t[2 + |d|] == h[2 + |d|] == '/';
    DigitEndAt(t, 2, 2 + |d|);
  }

  /** The serial number can be read back from the tweet: it is `i`. */
  lemma {:induction false} SerialOfTweet(i: int, total: int, title: string, part: string)
    requires 1 <= i
    ensures SerialOf(Tweet(i, total, title, part)) == i
  {
    var t := Tweet(i, total, title, part);
    var d := NatToString(i);
    DigitsAfterMarker(t, Header(i, total), Emoji(i), d, IntToString(total), Body(i, title, part));
    DecimalRoundTrip(i);
  }

  /** Markers repeat every ten tweets. */
  lemma {:induction false} EmojiCycle(i: int)
    requires 1 <= i
    ensures Emoji(i + 10) == Emoji(i)
  {
    assert (i + 10 - 1) % 10 == (i - 1) % 10;
  }

  /** Within any ten consecutive tweets no marker repeats. */
  lemma {:induction false} EmojiDistinct(i: int, j: int)
    requires 1 <= i < j < i + 10
    ensures Emoji(i) != Emoji(j)
  {
    assert (i - 1) % 10 != (j - 1) % 10;
    assert forall a, b :: 0 <= a < b < 10 ==> Palette[a] != Palette[b];
  }

  // ---------------------------------------------------------------------------------------
  // Choosing the inputs

  /** The text of an optional string: `None` and `""` are both falsy. */
  function TitleText(title: Option<string>): string {
    if title.Some? then title.value else ""
  }

  /** `title or page_title or url`. */
  function ChooseTitle(title: Option<string>, pageTitle: string, url: string): (r: string)
    ensures r == TitleText(title) || r == pageTitle || r == url
    ensures TitleText(title) != "" ==> r == TitleText(title)
    ensures TitleText(title) == "" && pageTitle != "" ==> r == pageTitle
    ensures r == "" <==> TitleText(title) == "" && pageTitle == "" && url == ""
  {
    if title.Some? && title.value != "" then title.value
    else if pageTitle != "" then pageTitle
    else url
  }

  /** `content if content else description`: the text to summarise. */
  function BaseText(page: Page): (r: string)
    ensures page.content != "" ==> r == page.content
    ensures page.content == "" ==> r == page.description
    ensures r == "" <==> page.content == "" && page.description == ""
  {
    if page.content != "" then page.content else page.description
  }

  /** The thread for a page that was fetched, as a value. */
  function Thread(url: string, apiKey: Option<string>, title: Option<string>, maxTweets: int,
                  page: Page, reply: Option<string>): seq<string>
  {
    var chosen := ChooseTitle(title, page.title, url);
    var summary := Summarizer.Summarize(BaseText(page), apiKey, reply, SummaryWords);
    var parts := Chunker.Chunk(summary, maxTweets);
    Tweets(parts, maxTweets, chosen)
  }

  /** Formatting stripped parts: tweet `k` carries serial number `k + 1`, and after its header
      comes the part unchanged, preceded in the first tweet by the stripped title, the hook and a
      line break. */
  lemma {:induction false} TweetsShape(parts: seq<string>, total: int, title: string)
    requires forall k :: 0 <= k < |parts| ==> Trimmed(parts[k])
    ensures var ts := Tweets(parts, total, title);
      && |ts| == |parts|
      && (forall k :: 0 <= k < |ts| ==> SerialOf(ts[k]) == k + 1)
      && (0 < |ts| ==> ts[0] == Header(1, total) + (Strip(title) + HookSuffix + "\n" + parts[0]))
      && (forall k :: 1 <= k < |ts| ==> ts[k] == Header(k + 1, total) + parts[k])
  {
    var ts := Tweets(parts, total, title);
    forall k | 0 <= k < |ts|
      ensures SerialOf(ts[k]) == k + 1
      ensures ts[k] == Header(k + 1, total) + (if k == 0 then Strip(title) + HookSuffix + "\n" + parts[0]
                                                else parts[k])
    {
      SerialOfTweet(k + 1, total, title, parts[k]);
      StripTrimmed(parts[k]);
    }
  }

  /** A thread has exactly `max_tweets` tweets, numbered 1 to `max_tweets` in order; the first
      carries the chosen title and the hook; every tweet ends with its part of the summary
      unchanged, since the parts are already stripped. */
  lemma {:induction false} ThreadShape(url: string, apiKey: Option<string>, title: Option<string>,
                                       maxTweets: int, page: Page, reply: Option<string>)
    requires MinTweets <= maxTweets <= MaxTweets
    ensures var th := Thread(url, apiKey, title, maxTweets, page, reply);
      var chosen := ChooseTitle(title, page.title, url);
      var parts := Chunker.Chunk(Summarizer.Summarize(BaseText(page), apiKey, reply, SummaryWords), maxTweets);
      && |th| == maxTweets
      && (forall k :: 0 <= k < |th| ==> SerialOf(th[k]) == k + 1)
      && th[0] == Header(1, maxTweets) + (Strip(chosen) + HookSuffix + "\n" + parts[0])
      && (forall k :: 1 <= k < |th| ==> th[k] == Header(k + 1, maxTweets) + parts[k])
  {
    var summary := Summarizer.Summarize(BaseText(page), apiKey, reply, SummaryWords);
    var parts := Chunker.Chunk(summary, maxTweets);
    Chunker.ChunkTrimmed(summary, maxTweets);
    TweetsShape(parts, maxTweets, ChooseTitle(title, page.title, url));
  }

  // ---------------------------------------------------------------------------------------
  // The whole operation

  /** `generate_thread(url, api_key, title, max_tweets)`, given the outcome of the fetch and the
      model's reply. The range check comes first, so an out-of-range length fails whatever the
      fetch would have done. */
  method GenerateThread(url: string, apiKey: Option<string>, title: Option<string>, maxTweets: int,
                        fetched: Result<Page, string>, reply: Option<string>)
    returns (r: Result<seq<string>, Error>)
    ensures (maxTweets < MinTweets || maxTweets > MaxTweets) <==> r == Failure(InvalidMaxTweets)
    ensures MinTweets <= maxTweets <= MaxTweets && fetched.Failure? ==>
              r == Failure(FetchFailed(fetched.error))
    ensures MinTweets <= maxTweets <= MaxTweets && fetched.Success? ==>
              r == Success(Thread(url, apiKey, title, maxTweets, fetched.value, reply))
  {
    if maxTweets < MinTweets || maxTweets > MaxTweets {
      return Failure(InvalidMaxTweets);
    }
    if fetched.Failure? {
      return Failure(FetchFailed(fetched.error));
    }
    var page := fetched.value;
    var chosenTitle := ChooseTitle(title, page.title, url);
    var baseText := BaseText(page);
    var summary := Summarizer.Summarize(baseText, apiKey, reply, SummaryWords);
    var parts := Chunker.ChunkText(summary, maxTweets);
    var tweets := FormatTweets(parts, maxTweets, chosenTitle);
    assert tweets == Thread(url, apiKey, title, maxTweets, page, reply);
    return Success(tweets);
  }
}
