/** `browse_web` of app/agents/web/browser.py: a structured article parse
    first, and a raw-page scrape when any step of it raises.

    The article library (download, parse, nlp) and the HTTP fetch with its
    HTML parser are not modelled: each step is an `Attempt` given as an
    input, and the method reports which of those calls it made. */
module Browser {
  import opened Wrappers
  import opened PyStr
  import opened WebUtils

  /** The `content` dictionary. A field holding `None` is a key the
      dictionary does not have; `title` holds Python's `None` as `None` and
      `publishDate` holds `Some(None)` for a date that is `None`. */
  datatype Document = Document(
    title: Option<string>,
    text: string,
    url: string,
    authors: Option<seq<string>>,
    publishDate: Option<Option<string>>,
    summary: Option<string>,
    keywords: Option<seq<string>>)
  {
    /** The keys of the dictionary. */
    function Keys(): set<string> {
      {"title", "text", "url"}
      + (if authors.Some? then {"authors"} else {})
      + (if publishDate.Some? then {"publish_date"} else {})
      + (if summary.Some? then {"summary"} else {})
      + (if keywords.Some? then {"keywords"} else {})
    }
  }

  /** `{"status": "success", "content": ...}` or `{"status": "error", "error": ...}` */
  datatype BrowseResult = Success(content: Document) | Error(error: string)

  /** What the article parser extracted; `publishDate` is `str(publish_date)`
      when the parser found a date and `None` when it did not. */
  datatype Article = Article(title: string, text: string, authors: seq<string>, publishDate: Option<string>)

  /** What the article's nlp pass produced. */
  datatype Nlp = Nlp(summary: string, keywords: seq<string>)

  /** The `<title>` element of the fetched page; its `.string` is `None` when
      the element does not hold exactly one string. */
  datatype TitleTag = NoTitleTag | TitleTag(str: Option<string>)

  /** The fetched page once scripts and styles are removed: its `get_text()`
      and its title element. */
  datatype Page = Page(text: string, title: TitleTag)

  /** The foreign calls `browse_web` makes, in order. */
  datatype Call = Download(url: string) | Parse | RunNlp | HttpGet(url: string)

  const Summarize := "summarize"
  const NoTitle := "No title found"
  /** Length limit of the fallback text. */
  const TextLimit := 5000

  /** Every step of the primary tier that runs returns normally. */
  predicate PrimarySucceeds(task: string, download: Attempt<()>, parse: Attempt<Article>, nlp: Attempt<Nlp>) {
    download.Done? && parse.Done? && (task == Summarize ==> nlp.Done?)
  }

  /** The fallback title: the title element's string, or the sentinel. */
  function FallbackTitle(tag: TitleTag): Option<string> {
    match tag
    case NoTitleTag => Some(NoTitle)
    case TitleTag(s) => s
  }

  /** `browse_web(url, task)`, where `download`, `parse` and `nlp` are the
      outcomes of the article library's steps and `fetch` the outcome of
      `requests.get` plus the HTML parse. */
  method BrowseWeb(url: string, task: string, download: Attempt<()>, parse: Attempt<Article>,
                   nlp: Attempt<Nlp>, fetch: Attempt<Page>)
    returns (r: BrowseResult, calls: seq<Call>)
    // primary tier: the article's own fields, and the url as given
    ensures PrimarySucceeds(task, download, parse, nlp) ==>
      var a := parse.value;
      && r.Success?
      && r.content.title == Some(a.title) && r.content.text == a.text && r.content.url == url
      && r.content.authors == Some(a.authors) && r.content.publishDate == Some(a.publishDate)
    // summary and keywords exactly when `task` is "summarize"
    ensures PrimarySucceeds(task, download, parse, nlp) ==>
      if task == Summarize then
        r.content.summary == Some(nlp.value.summary) && r.content.keywords == Some(nlp.value.keywords)
        && r.content.Keys() == {"title", "text", "url", "authors", "publish_date", "summary", "keywords"}
      else
        r.content.summary.None? && r.content.keywords.None?
        && r.content.Keys() == {"title", "text", "url", "authors", "publish_date"}
    // the nlp pass runs only for "summarize", after a successful parse
    ensures RunNlp in calls <==> task == Summarize && download.Done? && parse.Done?
    // the page is fetched again only when the primary tier failed
    ensures HttpGet(url) in calls <==> !PrimarySucceeds(task, download, parse, nlp)
    ensures |calls| > 0 && calls[0] == Download(url)
    // fallback tier: nothing of the primary tier survives
    ensures !PrimarySucceeds(task, download, parse, nlp) && fetch.Done? ==>
      && r.Success?
      && r.content.Keys() == {"title", "text", "url"}
      && (fetch.value.title.TitleTag? ==> r.content.title == fetch.value.title.str)
      && (fetch.value.title.NoTitleTag? ==> r.content.title == Some(NoTitle))
      && r.content.text == Take(CleanText(fetch.value.text), TextLimit)
      && r.content.url == url
    ensures r.Success? && !PrimarySucceeds(task, download, parse, nlp) ==>
      |r.content.text| <= TextLimit && NoLineBreak(r.content.text) && NoDoubleSpace(r.content.text)
    // an error only when both tiers raise, with the fallback's message
    ensures r.Error? <==> !PrimarySucceeds(task, download, parse, nlp) && fetch.Raised?
    ensures r.Error? ==> r.error == fetch.message
  {
    calls := [Download(url)];
    if download.Done? {
      calls := calls + [Parse];
      if parse.Done? {
        var article := parse.value;
        var content := Document(Some(article.title), article.text, url, Some(article.authors),
                                Some(article.publishDate), None, None);
        if task == Summarize {
          calls := calls + [RunNlp];
          if nlp.Done? {
            content := content.(summary := Some(nlp.value.summary));
            content := content.(keywords := Some(nlp.value.keywords));
            return Success(content), calls;
          }
        } else {
          return Success(content), calls;
        }
      }
    }
    // fallback to the raw page
    calls := calls + [HttpGet(url)];
    match fetch
    case Raised(e) =>
      r := Error(e);
    case Done(page) =>
      var text := CleanText(page.text);
      CleanTextTidy(page.text);
      SliceKeepsFlat(text, 0, |Take(text, TextLimit)|);
      r := Success(Document(FallbackTitle(page.title), Take(text, TextLimit), url, None, None, None, None));
  }
}
