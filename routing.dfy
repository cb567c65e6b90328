/** What the two `chat` handlers (app/main.py and main.py) share: the
    reply, the intent tests on the lower-cased message, and the browse
    branch, which takes the first URL-like word whose `browse_web` reports
    success. */
module Routing {
  import opened Wrappers
  import opened PyStr
  import opened Browser

  /** The reply dictionary: `status` is `"success"` when `ok`; `source` and
      `timestamp` are keys that are present only when `Some`. */
  datatype Reply = Reply(ok: bool, message: string, source: Option<string>, timestamp: Option<string>)

  /** The foreign calls a handler makes, in order. */
  datatype Effect = SearchCall(query: string, numResults: int) | BrowseCall(url: string)

  const Unhandled := "I'm not sure how to handle that request. Try asking about exchange rates or browsing a website."
  const RateNotFound := "Could not find current exchange rate information."
  /** The search both handlers send for an exchange-rate question. */
  const RateQuery := "current USD to IDR exchange rate today"
  const RateQueryCount := 2
  /** How much of a browsed page's text the answer shows. */
  const PreviewLimit := 500

  const UnhandledReply := Reply(false, Unhandled, None, None)
  const RateNotFoundReply := Reply(false, RateNotFound, None, None)

  /** The exchange-rate intent, checked first. */
  predicate AsksExchangeRate(m: string) {
    Contains(m, "exchange rate") || (Contains(m, "usd") && Contains(m, "idr"))
  }

  /** The browse intent, checked only when the exchange-rate one fails. */
  predicate AsksBrowse(m: string) {
    Contains(m, "browse") || Contains(m, "visit") || Contains(m, "open")
  }

  /** `word.startswith(("http://", "https://"))` */
  predicate IsUrl(w: string) {
    StartsWith(w, "http://") || StartsWith(w, "https://")
  }

  /** The word is a URL and browsing it reports success. */
  predicate Answers(w: string, browse: string -> BrowseResult) {
    IsUrl(w) && browse(w).Success?
  }

  /** Index of the first word that answers, or `|words|`. */
  function FirstBrowsed(words: seq<string>, browse: string -> BrowseResult): (k: nat)
    ensures k <= |words|
    ensures k < |words| ==> Answers(words[k], browse)
    ensures forall j :: 0 <= j < k ==> !Answers(words[j], browse)
  {
    if words == [] then 0
    else if Answers(words[0], browse) then 0
    else
      var k := 1 + FirstBrowsed(words[1..], browse);
      assert forall j :: 1 <= j < k ==> words[j] == words[1..][j - 1];
      k
  }

  /** A `browse_web` call for every word that looks like a URL, in order. */
  function UrlCalls(words: seq<string>): (cs: seq<Effect>)
    ensures |cs| <= |words|
    ensures forall c :: c in cs ==> c.BrowseCall? && c.url in words && IsUrl(c.url)
  {
    if words == [] then []
    else (if IsUrl(words[0]) then [BrowseCall(words[0])] else []) + UrlCalls(words[1..])
  }

  /** The `browse_web` calls made for `words`: every URL-like word up to and
      including the first one that answers. */
  function BrowseCalls(words: seq<string>, browse: string -> BrowseResult): seq<Effect> {
    var k := FirstBrowsed(words, browse);
    UrlCalls(if k < |words| then words[..k + 1] else words)
  }

  /** `f"{content['title']}"`: Python prints a missing title as `None`. */
  function ShowTitle(t: Option<string>): string {
    match t
    case None => "None"
    case Some(s) => s
  }

  /** The message of a browse answer. */
  function BrowseMessage(d: Document): (m: string)
    ensures StartsWith(m, "Title: ")
  {
    "Title: " + ShowTitle(d.title) + "\n\nContent: " + Take(d.text, PreviewLimit) + "..."
  }

  /** The reply of the browse branch: the first answering word's page, or
      the generic fallback. */
  function BrowseReply(words: seq<string>, browse: string -> BrowseResult): Reply {
    var k := FirstBrowsed(words, browse);
    if k < |words| then Reply(true, BrowseMessage(browse(words[k]).content), None, None)
    else UnhandledReply
  }

  /** The browse loop of both handlers: `for word in words`, browsing each
      URL-like word and answering with the first success. */
  method BrowseWords(words: seq<string>, browse: string -> BrowseResult) returns (reply: Reply, calls: seq<Effect>)
    ensures reply == BrowseReply(words, browse)
    ensures calls == BrowseCalls(words, browse)
  {
    calls := [];
    var i := 0;
    while i < |words|
      invariant i <= FirstBrowsed(words, browse)
      invariant calls == UrlCalls(words[..i])
    {
      var word := words[i];
      UrlCallsSnoc(words[..i], word);
      assert words[..i + 1] == words[..i] + [word];
      if IsUrl(word) {
        calls := calls + [BrowseCall(word)];
        var result := browse(word);
        if result.Success? {
          assert FirstBrowsed(words, browse) == i;
          return Reply(true, BrowseMessage(result.content), None, None), calls;
        }
      }
      i := i + 1;
    }
    assert words[..|words|] == words;
    reply := UnhandledReply;
  }

  // ------------------------------------------------------------- helpers

  lemma {:induction false} UrlCallsSnoc(ws: seq<string>, w: string)
    ensures UrlCalls(ws + [w]) == UrlCalls(ws) + (if IsUrl(w) then [BrowseCall(w)] else [])
    decreases |ws|
  {
    if ws == [] {
      assert [] + [w] == [w];
    } else {
      assert (ws + [w])[0] == ws[0] && (ws + [w])[1..] == ws[1..] + [w];
      UrlCallsSnoc(ws[1..], w);
    }
  }
}
