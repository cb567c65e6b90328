/** main.py: a second `chat` handler. It routes like app/main.py, but
    answers an exchange-rate question with the first line of a search
    result that mentions both currencies and a rate, without parsing any
    number.

    As in app/main.py, `search` is what
    `search_web(RateQuery, num_results=2)` returned and `browse(url)` what
    `browse_web(url)` returns. */
module RootMain {
  import opened Wrappers
  import opened PyStr
  import opened Browser
  import opened Search
  import opened Routing

  /** `any(k in l for k in keys)` */
  predicate ContainsAny(l: string, keys: seq<string>) {
    keys != [] && (Contains(l, keys[0]) || ContainsAny(l, keys[1..]))
  }

  const DollarKeys := ["usd", "dollar"]
  const RupiahKeys := ["idr", "rupiah"]
  const RateKeys := ["=", "rate", "price"]

  /** The filter of the `rate_lines` comprehension, on `line.lower()`. */
  predicate Qualifies(line: string) {
    var l := Lower(line);
    ContainsAny(l, DollarKeys) && ContainsAny(l, RupiahKeys) && ContainsAny(l, RateKeys)
  }

  /** `[f(line) for line in lines if keep(line)]` */
  function Kept(lines: seq<string>, keep: string -> bool, f: string -> string): (ls: seq<string>)
    ensures |ls| <= |lines|
  {
    if lines == [] then []
    else (if keep(lines[0]) then [f(lines[0])] else []) + Kept(lines[1..], keep, f)
  }

  /** `rate_lines` for the (lower-cased) text of one result. */
  function RateLines(text: string): seq<string> {
    Kept(Split(text, "\n"), Qualifies, Strip)
  }

  /** Index of the first line `keep` accepts, or `|lines|`. */
  function FirstKept(lines: seq<string>, keep: string -> bool): (k: nat)
    ensures k <= |lines|
    ensures k < |lines| ==> keep(lines[k])
    ensures forall j :: 0 <= j < k ==> !keep(lines[j])
  {
    if lines == [] then 0
    else if keep(lines[0]) then 0
    else
      var k := 1 + FirstKept(lines[1..], keep);
      assert forall j :: 1 <= j < k ==> lines[j] == lines[1..][j - 1];
      k
  }

  const RateInfoHeading := "Exchange Rate Information:\n"

  /** The reply to an exchange-rate question, given the search outcome: the
      first result with a rate line, answered with its first rate line. */
  function LineReply(search: SearchResult): Reply {
    match search
    case Failure(_) => RateNotFoundReply
    case Found(results) =>
      var k := FirstWithLines(results);
      if k < |results| then
        Reply(true, RateInfoHeading + RateLines(Lower(results[k].text))[0], Some(results[k].url), None)
      else RateNotFoundReply
  }

  /** Index of the first result whose lower-cased text has a rate line, or
      `|results|`. */
  function FirstWithLines(results: seq<Document>): (k: nat)
    ensures k <= |results|
    ensures k < |results| ==> RateLines(Lower(results[k].text)) != []
    ensures forall j :: 0 <= j < k ==> RateLines(Lower(results[j].text)) == []
  {
    if results == [] then 0
    else if RateLines(Lower(results[0].text)) != [] then 0
    else
      var k := 1 + FirstWithLines(results[1..]);
      assert forall j :: 1 <= j < k ==> results[j] == results[1..][j - 1];
      k
  }

  /** The exchange-rate branch of `chat`: the loop over the search results. */
  method AnswerWithLines(search: SearchResult) returns (reply: Reply)
    ensures reply == LineReply(search)
  {
    if search.Failure? {
      return RateNotFoundReply;
    }
    var results := search.results;
    var i := 0;
    while i < |results|
      invariant i <= FirstWithLines(results)
    {
      var rateLines := RateLines(Lower(results[i].text));
      if rateLines != [] {
        assert FirstWithLines(results) == i;
        return Reply(true, RateInfoHeading + rateLines[0], Some(results[i].url), None);
      }
      i := i + 1;
    }
    return RateNotFoundReply;
  }

  /** `chat(message)`: the exchange-rate intent first, then the browse
      intent, then the generic fallback. */
  method Chat(message: string, search: SearchResult, browse: string -> BrowseResult)
    returns (reply: Reply, calls: seq<Effect>)
    ensures AsksExchangeRate(Lower(message)) ==>
      reply == LineReply(search) && calls == [SearchCall(RateQuery, RateQueryCount)]
    ensures !AsksExchangeRate(Lower(message)) && AsksBrowse(Lower(message)) ==>
      reply == BrowseReply(Words(Lower(message)), browse) && calls == BrowseCalls(Words(Lower(message)), browse)
    ensures !AsksExchangeRate(Lower(message)) && !AsksBrowse(Lower(message)) ==>
      reply == UnhandledReply && calls == []
  {
    var m := Lower(message);
    if AsksExchangeRate(m) {
      calls := [SearchCall(RateQuery, RateQueryCount)];
      reply := AnswerWithLines(search);
    } else if AsksBrowse(m) {
      var words := Words(m);
      reply, calls := BrowseWords(words, browse);
    } else {
      reply, calls := UnhandledReply, [];
    }
  }

  // ------------------------------------------------------------ properties

  /** A line is kept exactly when `keep` accepts it, and is kept as `f` of it. */
  lemma {:induction false} KeptMembers(lines: seq<string>, keep: string -> bool, f: string -> string, l: string)
    ensures l in Kept(lines, keep, f) <==> exists line :: line in lines && keep(line) && f(line) == l
    decreases |lines|
  {
    if lines != [] {
      KeptMembers(lines[1..], keep, f, l);
      assert forall line :: line in lines <==> line == lines[0] || line in lines[1..];
    }
  }

  /** Filtering commutes with concatenation: the kept lines keep their order. */
  lemma {:induction false} KeptAppend(a: seq<string>, b: seq<string>, keep: string -> bool, f: string -> string)
    ensures Kept(a + b, keep, f) == Kept(a, keep, f) + Kept(b, keep, f)
    decreases |a|
  {
    if a == [] {
      assert a + b == b;
    } else {
      var h := if keep(a[0]) then [f(a[0])] else [];
      assert (a + b)[0] == a[0];
      assert (a + b)[1..] == a[1..] + b;
      KeptAppend(a[1..], b, keep, f);
      calc {
        Kept(a + b, keep, f);
        h + Kept(a[1..] + b, keep, f);
        h + (Kept(a[1..], keep, f) + Kept(b, keep, f));
        (h + Kept(a[1..], keep, f)) + Kept(b, keep, f);
      }
    }
  }

  /** The first kept line is `f` of the first accepted line; there is one
      exactly when some line is accepted. */
  lemma {:induction false} KeptHead(lines: seq<string>, keep: string -> bool, f: string -> string)
    ensures Kept(lines, keep, f) != [] <==> FirstKept(lines, keep) < |lines|
    ensures Kept(lines, keep, f) != [] ==> Kept(lines, keep, f)[0] == f(lines[FirstKept(lines, keep)])
    decreases |lines|
  {
    if lines != [] && !keep(lines[0]) {
      KeptHead(lines[1..], keep, f);
      assert FirstKept(lines, keep) == 1 + FirstKept(lines[1..], keep);
    }
  }

  /** Every rate line is stripped: no whitespace at either end. */
  lemma RateLinesStripped(text: string)
    ensures forall l :: l in RateLines(text) ==> Strip(l) == l
  {
    var lines := Split(text, "\n");
    forall l | l in RateLines(text) ensures Strip(l) == l {
      KeptMembers(lines, Qualifies, Strip, l);
      var line :| line in lines && Qualifies(line) && Strip(line) == l;
      StripIdempotent(line);
    }
  }

  /** Stripping a stripped text changes nothing. */
  lemma StripIdempotent(s: string)
    ensures Strip(Strip(s)) == Strip(s)
  {
    var t := Strip(s);
    if t != [] {
      assert StripEnd(t) == t;
      assert StripStart(t) == t;
    }
  }

  /** The answer of an exchange-rate question: on a successful search with
      a rate line, a success naming the first such result's URL and quoting
      a qualifying line of it; otherwise the not-found error. */
  lemma LineReplyShape(search: SearchResult)
    ensures LineReply(search).ok <==>
      search.Found? && exists i :: 0 <= i < |search.results| && RateLines(Lower(search.results[i].text)) != []
    ensures LineReply(search).ok ==>
      exists i, line :: (0 <= i < |search.results| && LineReply(search).source == Some(search.results[i].url)
                         && line in Split(Lower(search.results[i].text), "\n") && Qualifies(line)
                         && LineReply(search).message == RateInfoHeading + Strip(line))
    ensures !LineReply(search).ok ==> LineReply(search) == RateNotFoundReply
  {
    if search.Found? {
      var results := search.results;
      var k := FirstWithLines(results);
      if k < |results| {
        var lines := Split(Lower(results[k].text), "\n");
        KeptHead(lines, Qualifies, Strip);
        var q := FirstKept(lines, Qualifies);
        assert lines[q] in lines;
      }
    }
  }

  // -------------------------------------------------------------- example

  /** A lower-cased result text: a heading, then a rate line. */
  const ExampleText := "exchange rates\n1 usd = 15,750 idr"
  const ExampleLine := "1 usd = 15,750 idr"

  /** A text without upper-case letters is its own lower-case form. */
  /** Two lines around one separator. */
  lemma SplitTwo(a: string, c: char, b: string)
    requires c !in a && c !in b
    ensures Split(a + [c] + b, [c]) == [a, b]
  {
    SplitAtChar(a, c, b);
    SplitNoChar(b, c);
  }

  /** A lower-case line naming `usd`, `idr` and `=` is a rate line. */
  lemma QualifiesAt(l: string, i: nat, j: nat, k: nat)
    requires Lower(l) == l
    requires OccursAt(l, "usd", i) && OccursAt(l, "idr", j) && OccursAt(l, "=", k)
    ensures Qualifies(l)
  {
    ContainsAt(l, "usd", i);
    ContainsAt(l, "idr", j);
    ContainsAt(l, "=", k);
  }

  /** A lower-case line without `u` and `d` names no dollar key. */
  lemma NoDollar(l: string)
    requires Lower(l) == l && 'u' !in l && 'd' !in l
    ensures !Qualifies(l)
  {
    if Contains(l, "usd") {
      ContainsHead(l, "usd");
    }
    if Contains(l, "dollar") {
      ContainsHead(l, "dollar");
    }
    assert DollarKeys[0] == "usd" && DollarKeys[1..][0] == "dollar" && DollarKeys[1..][1..] == [];
    assert !ContainsAny(l, DollarKeys[1..][1..]);
    assert !ContainsAny(l, DollarKeys[1..]);
  }

  /** A text with no whitespace at either end is its own strip. */
  lemma StripTrimmed(s: string)
    requires s != [] && !IsSpace(s[0]) && !IsSpace(s[|s| - 1])
    ensures Strip(s) == s
  {
  }

  lemma KeptPair(a: string, b: string, keep: string -> bool, f: string -> string)
    ensures Kept([a, b], keep, f) == (if keep(a) then [f(a)] else []) + (if keep(b) then [f(b)] else [])
  {
    var lines := [a, b];
    assert lines[1..] == [b] && lines[1..][1..] == [];
  }

  lemma ExampleFacts(a: string, b: string)
    requires a == "exchange rates" && b == ExampleLine
    ensures ExampleText == a + ['\n'] + b
    ensures '\n' !in a && '\n' !in b
  {
  }

  lemma HeadingLower(a: string)
    requires a == "exchange rates"
    ensures Lower(a) == a
  {
    LowerFixed(a);
  }

  lemma HeadingChars(a: string)
    requires a == "exchange rates"
    ensures 'u' !in a && 'd' !in a
  {
  }

  lemma LineLower(b: string)
    requires b == ExampleLine
    ensures Lower(b) == b
  {
    LowerFixed(b);
  }

  lemma LineOccurs(b: string)
    requires b == ExampleLine
    ensures OccursAt(b, "usd", 2) && OccursAt(b, "idr", 15) && OccursAt(b, "=", 6)
    ensures b != [] && b[0] == '1' && b[|b| - 1] == 'r'
  {
    assert b[2..5] == "usd" && b[15..18] == "idr" && b[6..7] == "=";
  }

  /** The rate lines of a heading without `u` and `d` followed by a line
      naming `usd`, `idr` and `=` at the positions of the example. */
  lemma RateLinesExampleParts(t: string, a: string, b: string)
    requires t == a + ['\n'] + b && '\n' !in a && '\n' !in b
    requires Lower(a) == a && 'u' !in a && 'd' !in a
    requires Lower(b) == b && OccursAt(b, "usd", 2) && OccursAt(b, "idr", 15) && OccursAt(b, "=", 6)
    requires b != [] && b[0] == '1' && b[|b| - 1] == 'r'
    ensures RateLines(t) == [b]
  {
    SplitTwo(a, '\n', b);
    NoDollar(a);
    QualifiesAt(b, 2, 15, 6);
    StripTrimmed(b);
    KeptPair(a, b, Qualifies, Strip);
  }

  /** Of "exchange rates" and "1 usd = 15,750 idr", only the second is a
      rate line. */
  lemma RateLinesExample()
    ensures RateLines(ExampleText) == [ExampleLine]
  {
    var a, b := "exchange rates", ExampleLine;
    ExampleFacts(a, b);
    HeadingLower(a);
    HeadingChars(a);
    LineLower(b);
    LineOccurs(b);
    RateLinesExampleParts(ExampleText, a, b);
  }
}
