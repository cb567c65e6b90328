/** `search_web` of app/agents/web/search.py: query the search provider,
    then enrich every hit with `browse_web`, keeping the hit's own title,
    snippet and link whenever browsing it fails.

    The environment lookups, the client library and `browse_web` are
    inputs: the two credentials, the outcomes of building the service and
    of executing the query, and the outcome `browse(link)` of browsing each
    link. The method reports the calls it made. */
module Search {
  import opened Wrappers
  import opened Browser

  /** One provider item: a JSON object of strings (`title`, `snippet`, `link`, ...). */
  type Item = map<string, string>

  /** The provider's reply; `items` is `None` when the key is absent. */
  datatype ProviderReply = ProviderReply(items: Option<seq<Item>>)

  /** `{"status": "success", "results": ...}` or `{"status": "error", "error": ...}` */
  datatype SearchResult = Found(results: seq<Document>) | Failure(error: string)

  /** The calls into the search client and into `browse_web`, in order. */
  datatype ServiceCall = BuildService(developerKey: string) | ListQuery(q: string, cx: string, num: int) | Browse(url: string)

  const CredentialsError := "Google API credentials not found. Please set GOOGLE_API_KEY and GOOGLE_CSE_ID environment variables."
  const NoResults := "No results found"
  /** The most results the provider is asked for. */
  const MaxResults := 10

  /** A credential is usable when it is set and not empty (`not api_key` in Python). */
  predicate Configured(v: Option<string>) {
    v.Some? && v.value != ""
  }

  /** `item.get(key, '')` */
  function Get(item: Item, key: string): string {
    if key in item then item[key] else ""
  }

  /** The count sent to the provider: `min(num_results, 10)`. */
  function RequestedCount(numResults: int): (n: int)
    ensures n <= MaxResults
    ensures n == numResults || n == MaxResults
    ensures numResults <= MaxResults ==> n == numResults
  {
    if numResults < MaxResults then numResults else MaxResults
  }

  /** What a hit degrades to: its own title, snippet and link. */
  function ItemFallback(item: Item): (d: Document)
    ensures d.Keys() == {"title", "text", "url"}
    ensures d.title == Some(Get(item, "title")) && d.text == Get(item, "snippet") && d.url == Get(item, "link")
  {
    Document(Some(Get(item, "title")), Get(item, "snippet"), Get(item, "link"), None, None, None, None)
  }

  /** `browse_web(item['link'])` returned a success status. */
  predicate Browsed(item: Item, browse: string -> Attempt<BrowseResult>) {
    "link" in item && browse(item["link"]).Done? && browse(item["link"]).value.Success?
  }

  /** The entry kept for one hit: the browsed document when browsing reports
      success, and otherwise (an error status, an exception, or no `link`
      key at all) the hit's own fields. */
  function Entry(item: Item, browse: string -> Attempt<BrowseResult>): (d: Document)
    ensures Browsed(item, browse) ==> d == browse(item["link"]).value.content
    ensures !Browsed(item, browse) ==> d == ItemFallback(item)
  {
    if Browsed(item, browse) then browse(item["link"]).value.content else ItemFallback(item)
  }

  /** The result list: one entry per hit, in the provider's order. */
  function Entries(items: seq<Item>, browse: string -> Attempt<BrowseResult>): (ds: seq<Document>)
    ensures |ds| == |items|
    ensures forall i :: 0 <= i < |items| ==> ds[i] == Entry(items[i], browse)
  {
    seq(|items|, i requires 0 <= i < |items| => Entry(items[i], browse))
  }

  /** The `browse_web` calls made for `items`: one per hit that has a link, in order. */
  function BrowseTargets(items: seq<Item>): seq<ServiceCall> {
    if items == [] then []
    else
      var last := items[|items| - 1];
      BrowseTargets(items[..|items| - 1]) + (if "link" in last then [Browse(last["link"])] else [])
  }

  lemma EntriesSnoc(items: seq<Item>, i: nat, browse: string -> Attempt<BrowseResult>)
    requires i < |items|
    ensures Entries(items[..i + 1], browse) == Entries(items[..i], browse) + [Entry(items[i], browse)]
  {
    var a, b := Entries(items[..i + 1], browse), Entries(items[..i], browse) + [Entry(items[i], browse)];
    forall j | 0 <= j < i + 1 ensures a[j] == b[j] {
      assert items[..i + 1][j] == items[j];
    }
  }

  lemma BrowseTargetsSnoc(items: seq<Item>, i: nat)
    requires i < |items|
    ensures BrowseTargets(items[..i + 1]) ==
      BrowseTargets(items[..i]) + (if "link" in items[i] then [Browse(items[i]["link"])] else [])
  {
    assert items[..i + 1][..i] == items[..i];
  }

  /** Each hit's entry depends on that hit alone: changing one hit leaves
      every other entry as it was. */
  lemma EntriesIsolated(items: seq<Item>, j: nat, other: Item, browse: string -> Attempt<BrowseResult>)
    requires j < |items|
    ensures forall i :: 0 <= i < |items| && i != j ==>
      Entries(items[j := other], browse)[i] == Entries(items, browse)[i]
  {
  }

  /** `search_web(query, num_results)` */
  method SearchWeb(query: string, numResults: int, apiKey: Option<string>, cseId: Option<string>,
                   build: Attempt<()>, execute: Attempt<ProviderReply>, browse: string -> Attempt<BrowseResult>)
    returns (r: SearchResult, calls: seq<ServiceCall>)
    // missing credentials: an error before any call
    ensures !(Configured(apiKey) && Configured(cseId)) ==> r == Failure(CredentialsError) && calls == []
    // otherwise the service is built, then asked for min(num_results, 10) results
    ensures Configured(apiKey) && Configured(cseId) ==>
      |calls| >= 1 && calls[0] == BuildService(apiKey.value)
      && (build.Raised? ==> r == Failure(build.message) && |calls| == 1)
      && (build.Done? ==> |calls| >= 2 && calls[1] == ListQuery(query, cseId.value, RequestedCount(numResults)))
    ensures Configured(apiKey) && Configured(cseId) && build.Done? ==>
      match execute
      case Raised(e) => r == Failure(e) && |calls| == 2
      case Done(reply) =>
        match reply.items
        case None => r == Failure(NoResults) && |calls| == 2
        case Some(items) => r == Found(Entries(items, browse)) && calls[2..] == BrowseTargets(items)
    // failure of a single hit never makes the whole call fail
    ensures r.Failure? <==>
      !(Configured(apiKey) && Configured(cseId)) || build.Raised? || execute.Raised? || execute.value.items.None?
  {
    calls := [];
    if !Configured(apiKey) || !Configured(cseId) {
      return Failure(CredentialsError), calls;
    }
    calls := calls + [BuildService(apiKey.value)];
    if build.Raised? {
      return Failure(build.message), calls;
    }
    calls := calls + [ListQuery(query, cseId.value, RequestedCount(numResults))];
    if execute.Raised? {
      return Failure(execute.message), calls;
    }
    var reply := execute.value;
    if reply.items.None? {
      return Failure(NoResults), calls;
    }
    var items := reply.items.value;
    var processed, browsed := EnrichItems(items, browse);
    calls := calls + browsed;
    assert calls[2..] == browsed;
    r := Found(processed);
  }

  /** The loop of `search_web` over the provider's items: each is replaced
      by its browsed document, or by its own fields when browsing fails. */
  method EnrichItems(items: seq<Item>, browse: string -> Attempt<BrowseResult>)
    returns (processed: seq<Document>, calls: seq<ServiceCall>)
    ensures processed == Entries(items, browse)
    ensures |processed| == |items| && forall i :: 0 <= i < |items| ==> processed[i] == Entry(items[i], browse)
    ensures calls == BrowseTargets(items)
  {
    processed, calls := [], [];
    var i := 0;
    while i < |items|
      invariant 0 <= i <= |items|
      invariant calls == BrowseTargets(items[..i])
      invariant processed == Entries(items[..i], browse)
    {
      var item := items[i];
      var content: Document;
      if "link" in item {
        calls := calls + [Browse(item["link"])];
        var detailed := browse(item["link"]);
        if detailed.Done? && detailed.value.Success? {
          content := detailed.value.content;
        } else {
          content := ItemFallback(item);
        }
      } else {
        content := ItemFallback(item);
      }
      assert content == Entry(item, browse);
      processed := processed + [content];
      EntriesSnoc(items, i, browse);
      BrowseTargetsSnoc(items, i);
      i := i + 1;
    }
    assert items[..|items|] == items;
  }
}
