# chatengine core in Dafny

A model of the decision logic of the chatengine web agent, with proofs about it. The agent answers two kinds of chat message:

- **exchange-rate questions**: it searches the web and pulls a USD→IDR rate out of the result texts;
- **browse requests**: it fetches the first URL in the message and shows its title and the start of its text.

The model covers five pieces of that agent:

- `clean_text`, the text normaliser (`utils.dfy`, module `WebUtils`). It is written over the Python `str` operations modelled in `pystr.dfy` (module `PyStr`): `isspace`, `splitlines`, `strip`, `split(sep)`, `split()`, ASCII `lower`, `in`, `startswith`, slicing and `replace`.
- `browse_web`, the two-tier document extractor (`browser.dfy`, module `Browser`). The tier selection is a method. The article library steps (download, parse, nlp) and the HTTP fetch are `Attempt` inputs; each is a value or a raised message. The method returns the trace of calls it made.
- `search_web`, the search aggregator (`search.dfy`, module `Search`). It is a method over these inputs:
  - the two credentials, as `Option<string>`;
  - the outcomes of building the client and of running the query;
  - a function giving the outcome of `browse_web` for each link.

  The loop over the provider's items is its own method, `EnrichItems`. Both return the calls they made.
- `extract_exchange_rate` and `chat` of app/main.py (`rate_matcher.dfy`, `rate_format.dfy`, `app_main.dfy`):
  - the two regular expressions are a small greedy pattern matcher, searched leftmost;
  - `float()` reads an exact decimal;
  - `:,.2f` rounds that exact value to hundredths, half to even, and groups the thousands with commas.
- `chat` of main.py (`root_main.dfy`, module `RootMain`): the `rate_lines` line filter and its own answer loop.

Some logic is shared by both handlers (`routing.dfy`, module `Routing`): the intent tests, the browse loop over the message's words, and the reply values.

The outcome of `search_web` and the `browse_web` function are parameters of both `chat` methods. With those fixed, each handler is a deterministic function of the message. Each handler's loops are methods proved equal to a specification function (`RateReply`, `LineReply`, `BrowseReply`, `BrowseCalls`). Lemmas then state what those functions promise.

The model follows the code as written:

- a provider reply whose `items` list is empty is a success with no results; only a missing `items` key is the "No results found" error;
- `browse_web` does not check the URL scheme;
- a title may be empty, or `None` (Python's `None` is modelled as `None`);
- an article without authors has an empty author list, and `publish_date` is `None` when the article has no date;
- the requested count is `min(num_results, 10)`, with no lower bound;
- the per-item enrichment is sequential, with no timeout or retry;
- a non-2xx response is not treated as a failure;
- in `chat`, a URL word whose browse fails moves the loop on to the next URL word.

## Model

| member | source | states |
|---|---|---|
| PyStr.StripStart | app/agents/web/utils.py:16 | `lstrip` returns a suffix of the text that does not start with whitespace, and all it removed is whitespace |
| PyStr.StripEnd | app/agents/web/utils.py:16 | `rstrip` returns a prefix of the text that does not end with whitespace, and all it removed is whitespace |
| PyStr.Strip | app/agents/web/utils.py:16-17 | `strip` is never longer than its input and has no whitespace at either end |
| PyStr.StripOffset | app/agents/web/utils.py:16-17 | `strip` returns a slice of its input, and everything before and after that slice is whitespace |
| PyStr.LineEnd | app/agents/web/utils.py:16 | the first line of `splitlines` ends at the first line boundary and holds none |
| PyStr.SplitLinesBreak | app/agents/web/utils.py:16 | a line without a boundary, then a one-character boundary (other than a `\r` followed by `\n`), is one line, and the lines after it follow |
| PyStr.SplitLinesCrLf | app/agents/web/utils.py:16 | `\r\n` ends one line as a single boundary: no empty line comes between it and the next |
| PyStr.SplitLinesSingle | app/agents/web/utils.py:16 | a non-empty text without a boundary is a single line |
| PyStr.IndexOf | app/agents/web/utils.py:17 | the separator occurs at the index found and at no earlier index; the text's length means there is none |
| PyStr.WordsAreWords | app/main.py:66 | every word of `split()` is non-empty and holds no whitespace |
| PyStr.WordsOfWord | app/main.py:66 | a non-empty text without whitespace splits into itself alone |
| PyStr.WordsSkipSpace | app/main.py:66 | whitespace before the first word produces no word |
| PyStr.WordsCons | app/main.py:66 | a word followed by whitespace is the first word of `split()`, and the words of the rest follow it in order |
| PyStr.Lower | app/main.py:39 | `lower` keeps the length and lower-cases each character (ASCII letters) |
| PyStr.LowerIdempotent | main.py:22 | lower-casing text that is already lower-case changes nothing |
| PyStr.LowerLines | main.py:22-26 | every line of `text.split('\n')` on the lower-cased text is lower-case already, so the filter's `line.lower()` returns the line itself |
| PyStr.SplitKeepsChars | main.py:23 | every piece of `split(sep)` is made of characters of the text |
| PyStr.Take | app/agents/web/browser.py:67 | `s[:n]` is the prefix of length `min(n, len(s))` |
| PyStr.RemoveKeeps | app/main.py:28 | `replace(',', '')` leaves no comma and adds no character |
| PyStr.ContainsAt | app/main.py:42 | `sub in s` holds when `sub` occurs at any index |
| PyStr.ContainsOccurs | app/main.py:42 | `sub in s` holds only when `sub` occurs at some index; with ContainsAt, `in` holds exactly when there is an occurrence |
| PyStr.ContainsHead | main.py:24-26 | `sub in s` needs the first character of `sub` in `s` |
| PyStr.IndexOfChar | main.py:23 | a one-character separator is first found where that character first occurs |
| PyStr.SplitAtChar | main.py:23 | `split('\n')` cuts at the first newline and then splits the rest |
| PyStr.SplitNoChar | main.py:23 | a text without a newline splits into itself alone |
| WebUtils.StripEach | app/agents/web/utils.py:16 | the stripped lines are the lines stripped one by one, in order |
| WebUtils.SplitLinesFlat | app/agents/web/utils.py:16 | no line of `splitlines` holds a line boundary |
| WebUtils.SplitLinesNonSpace | app/agents/web/utils.py:16 | splitting into lines drops whitespace only |
| WebUtils.StripKeepsFlat | app/agents/web/utils.py:16-17 | stripping adds no line boundary and no double space |
| WebUtils.StripNonSpace | app/agents/web/utils.py:16-17 | stripping drops whitespace only |
| WebUtils.SplitPiecesFlat | app/agents/web/utils.py:17 | the pieces of `split("  ")` hold no two spaces in a row, and no line boundary when the line held none |
| WebUtils.SplitNonSpace | app/agents/web/utils.py:17 | `split("  ")` drops spaces only |
| WebUtils.NonEmptyConcat | app/agents/web/utils.py:18 | dropping the empty chunks loses no character |
| WebUtils.JoinTidy | app/agents/web/utils.py:18 | joining tidy non-empty chunks with single spaces gives a tidy string |
| WebUtils.JoinNonSpace | app/agents/web/utils.py:18 | joining with spaces adds whitespace only |
| WebUtils.CleanTextTidy | app/agents/web/utils.py:16-18 | the output holds no line boundary, no two spaces in a row, and no whitespace at either end |
| WebUtils.CleanTextKeepsNonSpace | app/agents/web/utils.py:16-18 | the output's non-whitespace characters are exactly the input's, in the same order |
| WebUtils.CleanTextEmpty | app/agents/web/utils.py:16-18 | the output is empty exactly when the input is empty or all whitespace |
| WebUtils.CleanTextFixedPoint | app/agents/web/utils.py:16-18 | a string that is one line, single-spaced and trimmed comes back unchanged |
| WebUtils.CleanTextIdempotent | app/agents/web/utils.py:16-18 | cleaning twice is the same as cleaning once |
| Browser.BrowseWeb | app/agents/web/browser.py:11-76 | when every primary step succeeds: success with the article's fields and the url as given. Summary and keywords are present, and nlp is called, exactly for "summarize". Any primary failure, nlp included, leaves nothing of the primary tier: the page is fetched, and the content has exactly title, text and url. The title is the title element's string, or "No title found" when the page has no title element. That text is the cleaned page text cut to 5000 characters, so it is one line with no double spaces. An error comes only when both tiers raise, and carries the fallback's message |
| Search.RequestedCount | app/agents/web/search.py:40 | the count sent is `num_results` when at most 10, and 10 otherwise; there is no lower bound |
| Search.ItemFallback | app/agents/web/search.py:57-67 | a degraded entry has exactly the keys title, text and url, taken from the item's title, snippet and link, `''` when missing |
| Search.EntriesIsolated | app/agents/web/search.py:52-69 | changing one item changes no other item's entry |
| Search.EnrichItems | app/agents/web/search.py:49-69 | the loop builds exactly `Entries(items)`: one entry per provider item, in the provider's order. Each entry is the browsed content on success and the item's own fields on an error status or exception. It makes one browse call per item with a link, in order |
| Search.SearchWeb | app/agents/web/search.py:14-80 | missing credentials fail before any call; otherwise the service is built, then queried for `min(n, 10)`. A build or query exception fails with its message. A reply without `items` fails with "No results found". Otherwise success with the enriched entries. The call fails exactly in these cases, never because of one item |
| RateMatcher.SkipSpace | app/main.py:19-20 | `\s*` consumes the longest run of whitespace |
| RateMatcher.RunEnd | app/main.py:19-20 | `[\d,\.]` runs to the first character outside the class |
| RateMatcher.FirstAlt | app/main.py:19-20 | an alternative group matches exactly when one of its alternatives occurs there, ignoring case |
| RateMatcher.MatchAt | app/main.py:19-20 | a match at `p` ends inside the text, and its group lies inside the match |
| RateMatcher.ReSearch | app/main.py:24 | `re.search` returns the leftmost position where the pattern matches, or no match when it matches nowhere |
| RateMatcher.GroupOfMatch | app/main.py:19-20 | a match of a pattern with a group has a group, and that group is a non-empty run of digits, commas and dots that extends as far right as it can |
| RateMatcher.MatchSplit | app/main.py:19-20 | matching a pattern whose first part has no group is matching the rest where the first part's match ends |
| RateMatcher.RateGroupStart | app/main.py:19-20 | in both patterns the group starts right after the `=` and the whitespace after it, so it can be extended neither left nor right: it is the whole run of digits, commas and dots found there |
| RateMatcher.PrefixMatches | app/main.py:19-20 | a match of a longer pattern contains a match of its prefix, with the same group |
| RateMatcher.IdrImpliesBare | app/main.py:19-20 | wherever the IDR pattern matches, the bare pattern matches too, with the same group |
| RateMatcher.MatchIgnoresCase | app/main.py:24 | matching at a position gives the same outcome on the lower-cased text (`re.IGNORECASE`) |
| RateMatcher.SearchIgnoresCase | app/main.py:24 | the search finds the same match in the text and in its lower-cased form |
| RateMatcher.GroupIgnoresCase | app/main.py:24-26 | the captured characters are the same in the text and in its lower-cased form |
| RateFormat.ParseFloatAccepts | app/main.py:28-33 | `float` of digits and dots succeeds exactly when there is at most one dot and at least one digit (so `"."` and `"1.2.3"` are skipped) |
| RateFormat.ParseFloatDigits | app/main.py:30 | `float("w.f")` is exactly `(w·10^len(f) + f) / 10^len(f)` |
| RateFormat.ParseFloatWhole | app/main.py:30 | `float` of digits alone is their value |
| RateFormat.RoundHalfEvenNearest | app/main.py:31 | rounding a quotient is within half a unit, and an exact half goes to the even neighbour |
| RateFormat.CentsNearest | app/main.py:31 | `.2f` is within half a hundredth of the exact value, is exact with at most two decimals, and rounds an exact half to even |
| RateFormat.Digits | app/main.py:31 | the decimal digits of a number denote it and have no leading zero |
| RateFormat.Pad3 | app/main.py:31 | a group after a comma is exactly three digits denoting its value |
| RateFormat.GroupedCommas | app/main.py:31 | the whole part has commas between groups of three digits, the first group being one to three digits |
| RateFormat.GroupedValue | app/main.py:31 | with the commas removed, the whole part is digits denoting the whole number |
| RateFormat.Cents2Value | app/main.py:31 | the two digits after the point denote the hundredths |
| RateFormat.ParseExample | app/main.py:28-30 | `float("15750.25")` is exactly 15750.25 |
| RateFormat.FormatExample | app/main.py:31 | 15750.25 is formatted as "1 USD = IDR 15,750.25" |
| RateFormat.AmountRoundTrip | app/main.py:28-31 | reading a formatted amount back the way the capture is read (commas removed, then `float`) gives exactly the hundredths it was formatted from |
| AppMain.CaptureIsNumberText | app/main.py:26-28 | a capture with its commas removed holds only digits and dots |
| AppMain.RateByPatternsCons | app/main.py:23-33 | the patterns are tried in order, and the next is tried only when the current one yields nothing |
| AppMain.RateInOrder | app/main.py:18-34 | a rate from the IDR pattern wins whatever the bare pattern would find; otherwise the bare pattern's leftmost match decides; `None` when neither yields a rate |
| AppMain.ExtractExchangeRate | app/main.py:16-34 | the loop returns exactly `RateIn(text)`: the first pattern whose leftmost match's group parses, formatted; `None` otherwise |
| AppMain.TryPatternIgnoresCase | app/main.py:24 | one pattern's result is the same on the text and on its lower-cased form |
| AppMain.RateInIgnoresCase | app/main.py:47-49 | lower-casing the text before extracting, as `chat` does, changes nothing |
| AppMain.RateByPatternsFormatted | app/main.py:31 | whatever the patterns, a found rate is the format of some number |
| AppMain.RateReadsBack | app/main.py:28-31 | a found rate is "1 USD = IDR " and an amount that reads back, commas removed, as exactly the hundredths it shows |
| AppMain.ExampleMatch | app/main.py:19-24 | in "1 usd = 15,750.25 idr" the IDR pattern matches from the first character, with "15,750.25" as its group |
| AppMain.ExtractExample | app/main.py:16-34 | `extract_exchange_rate("1 usd = 15,750.25 idr")` is "1 USD = IDR 15,750.25" |
| AppMain.FirstRated | app/main.py:46-50 | the first result whose lower-cased text holds a rate, or the end when none does |
| AppMain.AnswerRate | app/main.py:43-61 | the loop answers exactly `RateReply`: the first result with a rate, with its url as source and the fixed timestamp. A failed search or no rate gives the fixed error |
| AppMain.Chat | app/main.py:37-80 | the exchange intent is checked first and makes one search call. Otherwise the browse intent answers from the message's URL words. Otherwise the generic fallback is returned, with no call |
| Routing.FirstBrowsed | app/main.py:67-70 | the first word that is a URL and browses successfully, or the end when none does |
| Routing.UrlCalls | app/main.py:67-69 | browse calls go only to words of the message that start with `http://` or `https://` |
| Routing.BrowseWords | app/main.py:64-80 | the browse loop answers from the first URL word that browses successfully, after browsing every earlier URL word. It answers with that page's title and first 500 characters; with no such word it gives the generic fallback |
| RootMain.KeptMembers | main.py:23-26 | a line is a rate line exactly when it is the stripped form of a line that qualifies |
| RootMain.KeptAppend | main.py:23-26 | the filter keeps the order of the lines |
| RootMain.FirstKept | main.py:23-27 | the first line that qualifies, or the end when none does |
| RootMain.KeptHead | main.py:23-30 | there is a rate line exactly when some line qualifies, and the first rate line is the first qualifying line, stripped |
| RootMain.RateLinesExample | main.py:22-26 | of the lines "exchange rates" and "1 usd = 15,750 idr", only the second is a rate line |
| RootMain.StripIdempotent | main.py:23 | stripping a stripped line changes nothing |
| RootMain.RateLinesStripped | main.py:23 | every rate line has no whitespace at either end |
| RootMain.FirstWithLines | main.py:21-27 | the first result whose lower-cased text has a rate line, or the end when none does |
| RootMain.AnswerWithLines | main.py:18-37 | the loop answers exactly `LineReply`: the first result with a rate line, answered with its first rate line and its url. A failed search or no such line gives the fixed error |
| RootMain.LineReplyShape | main.py:20-37 | the answer succeeds exactly when the search succeeded and some result has a qualifying line. It then quotes a qualifying line of that result, stripped, with that result's url; otherwise it is the fixed error |
| RootMain.Chat | main.py:12-56 | the same routing as app/main.py, with the line filter answering the exchange intent |

## Left out

- HTTP plumbing: the FastAPI application, the `ChatMessage` model and the `HTTPException` wrapping in both handlers.
- The Google client construction and query, `load_dotenv` and `os.getenv`. These are inputs: the credentials are `Option<string>`, and the outcomes of building and querying are `Attempt`s.
- newspaper3k, `requests.get`, BeautifulSoup, its `get_text` and the script/style removal. These foreign libraries are `Attempt` inputs. The only part modelled is that the fallback feeds the page text through `clean_text`.
- `str(article.publish_date)`: the string form is part of the parser's input value.
- Unicode case mapping: `lower` and `re.IGNORECASE` are modelled on ASCII letters only. This leaves out the non-ASCII letters that Python's case-insensitive matching equates with letters of the two patterns: `ſ` (U+017F) with `s`, and `ı` (U+0131) and `İ` (U+0130) with `i`. It also leaves out that `str.lower` turns `İ` into two characters.
- Non-ASCII digits: `\d` and `float()` accept other decimal digits; the model accepts only `0`-`9`.
- RateFormat.ParseFloat: modelled only for texts of digits and dots, the only texts the capture can produce. It does not model signs, exponents, `inf`, `nan` or surrounding whitespace.
- RateFormat.Cents: rounds the exact decimal value, half to even. Python's `float` rounds to binary first, so the model does not capture binary rounding, values beyond 2^53, or overflow to `inf`.
- RateMatcher.MatchAt: matches greedily without backtracking. For these two fixed patterns that gives the same result as Python's backtracking engine, but the matcher is not a model of general regular expressions.
- The browse outcome as a function of the URL: `search_web` and both `chat` handlers take `browse_web` as a function from URL to outcome. Two provider items with the same link, or a message naming one URL twice, therefore browse with the same outcome, while the source makes a fresh network call each time.
- Concurrency, timeouts and retries: the original runs sequentially and has none.
- Worked examples of `clean_text`, `browse_web` and `search_web` on concrete values. The model states worked examples only for `extract_exchange_rate` and for the `rate_lines` filter.
