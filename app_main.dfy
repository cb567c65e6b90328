/** app/main.py: `extract_exchange_rate` and the `chat` handler, which
    answers an exchange-rate question from the first search result whose
    text holds a rate, and a browse request from the first URL in the
    message that browses successfully.

    The search and the browsing are inputs: `search` is what
    `search_web(RateQuery, num_results=2)` returned and `browse(url)` what
    `browse_web(url)` returns. */
module AppMain {
  import opened Wrappers
  import opened PyStr
  import opened Browser
  import opened Search
  import opened RateMatcher
  import opened RateFormat
  import opened Routing

  /** A capture with its commas removed is a text of digits and dots. */
  lemma CaptureIsNumberText(s: string, g: Group)
    requires g.start <= g.end <= |s|
    requires forall k :: g.start <= k < g.end ==> IsRateChar(s[k])
    ensures NumberText(Remove(Captured(s, g), ','))
  {
    var c := Captured(s, g);
    var r := Remove(c, ',');
    assert forall k :: 0 <= k < |c| ==> IsRateChar(c[k]);
    RemoveKeeps(c, ',');
    forall i | 0 <= i < |r| ensures IsDigit(r[i]) || r[i] == '.' {
      assert r[i] in r;
    }
  }

  /** The patterns of `ps` in order, each judged by its leftmost match
      only: the first whose group parses gives the formatted rate. */
  function RateByPatterns(ps: seq<seq<Elem>>, text: string): (r: Option<string>)
  {
    if ps == [] then None
    else
      var here := (
        match ReSearch(text, ps[0])
        case None => None
        case Some(m) =>
          match m.outcome.group
          case None => None
          case Some(g) =>
            match ParseFloat(Remove(Captured(text, g), ','))
            case None => None
            case Some(v) => Some(FormatRate(v)));
      if here.Some? then here else RateByPatterns(ps[1..], text)
  }

  /** What one pattern yields: the formatted rate read from the group of its
      leftmost match, or `None` when it does not match or the group does
      not parse as a number. */
  function TryPattern(text: string, pat: seq<Elem>): (r: Option<string>)
  {
    RateByPatterns([pat], text)
  }

  /** Trying a list of patterns is trying its first, and on `None` the rest. */
  lemma RateByPatternsCons(ps: seq<seq<Elem>>, text: string)
    requires ps != []
    ensures RateByPatterns(ps, text) ==
      if TryPattern(text, ps[0]).Some? then TryPattern(text, ps[0]) else RateByPatterns(ps[1..], text)
  {
    var single := [ps[0]];
    assert single[0] == ps[0] && single[1..] == [];
    assert RateByPatterns(single[1..], text) == None;
  }

  /** `extract_exchange_rate(text)` as a value. */
  function RateIn(text: string): Option<string> {
    RateByPatterns(RatePatterns, text)
  }

  /** `extract_exchange_rate(text)`: the patterns in order, each judged by
      its leftmost match only. */
  method ExtractExchangeRate(text: string) returns (rate: Option<string>)
    ensures rate == RateIn(text)
  {
    var patterns := RatePatterns;
    var i := 0;
    while i < |patterns|
      invariant 0 <= i <= |patterns|
      invariant RateByPatterns(patterns[i..], text) == RateIn(text)
    {
      assert patterns[i..][0] == patterns[i] && patterns[i..][1..] == patterns[i + 1..];
      var found := ReSearch(text, patterns[i]);
      if found.Some? && found.value.outcome.group.Some? {
        var g := found.value.outcome.group.value;
        GroupOfMatch(text, found.value.at, patterns[i]);
        CaptureIsNumberText(text, g);
        var cleaned := Remove(Captured(text, g), ',');
        var value := ParseFloat(cleaned);
        if value.Some? {
          return Some(FormatRate(value.value));
        }
      }
      i := i + 1;
    }
    return None;
  }

  // ------------------------------------------------------------- chat

  /** Index of the first result whose lower-cased text holds a rate, or
      `|results|`. */
  function FirstRated(results: seq<Document>): (k: nat)
    ensures k <= |results|
    ensures k < |results| ==> RateIn(Lower(results[k].text)).Some?
    ensures forall j :: 0 <= j < k ==> RateIn(Lower(results[j].text)).None?
  {
    if results == [] then 0
    else if RateIn(Lower(results[0].text)).Some? then 0
    else
      var k := 1 + FirstRated(results[1..]);
      assert forall j :: 1 <= j < k ==> results[j] == results[1..][j - 1];
      k
  }

  const RateHeading := "Current Exchange Rate:\n"
  const RateTimestamp := "Data from XE.com"

  /** The reply to an exchange-rate question, given the search outcome. */
  function RateReply(search: SearchResult): Reply {
    match search
    case Failure(_) => RateNotFoundReply
    case Found(results) =>
      var k := FirstRated(results);
      if k < |results| then
        Reply(true, RateHeading + RateIn(Lower(results[k].text)).value, Some(results[k].url), Some(RateTimestamp))
      else RateNotFoundReply
  }

  /** The exchange-rate branch of `chat`: the loop over the search results. */
  method AnswerRate(search: SearchResult) returns (reply: Reply)
    ensures reply == RateReply(search)
  {
    if search.Failure? {
      return RateNotFoundReply;
    }
    var results := search.results;
    var i := 0;
    while i < |results|
      invariant i <= FirstRated(results)
    {
      var item := results[i];
      var rate := ExtractExchangeRate(Lower(item.text));
      if rate.Some? {
        assert FirstRated(results) == i;
        return Reply(true, RateHeading + rate.value, Some(item.url), Some(RateTimestamp));
      }
      i := i + 1;
    }
    return RateNotFoundReply;
  }

  /** `chat(message)`: the exchange-rate intent first, then the browse
      intent, then the generic fallback. */
  method Chat(message: string, search: SearchResult, browse: string -> BrowseResult)
    returns (reply: Reply, calls: seq<Effect>)
    ensures AsksExchangeRate(Lower(message)) ==>
      reply == RateReply(search) && calls == [SearchCall(RateQuery, RateQueryCount)]
    ensures !AsksExchangeRate(Lower(message)) && AsksBrowse(Lower(message)) ==>
      reply == BrowseReply(Words(Lower(message)), browse) && calls == BrowseCalls(Words(Lower(message)), browse)
    ensures !AsksExchangeRate(Lower(message)) && !AsksBrowse(Lower(message)) ==>
      reply == UnhandledReply && calls == []
  {
    var m := Lower(message);
    if AsksExchangeRate(m) {
      calls := [SearchCall(RateQuery, RateQueryCount)];
      reply := AnswerRate(search);
    } else if AsksBrowse(m) {
      var words := Words(m);
      reply, calls := BrowseWords(words, browse);
    } else {
      reply, calls := UnhandledReply, [];
    }
  }

  // ------------------------------------------------------------ properties

  lemma TryPatternIgnoresCase(text: string, pat: seq<Elem>)
    ensures TryPattern(Lower(text), pat) == TryPattern(text, pat)
  {
    SearchIgnoresCase(text, pat);
    GroupIgnoresCase(text, pat);
    var single := [pat];
    assert single[0] == pat && single[1..] == [];
    assert RateByPatterns(single[1..], text) == None;
    assert RateByPatterns(single[1..], Lower(text)) == None;
    var m := ReSearch(text, pat);
    if m.Some? && m.value.outcome.group.Some? {
      var g := m.value.outcome.group.value;
      assert Captured(Lower(text), g) == Captured(text, g);
    }
  }

  /** Matching ignores case, so lower-casing the text first (as `chat`
      does) changes nothing. */
  lemma RateInIgnoresCase(text: string)
    ensures RateIn(Lower(text)) == RateIn(text)
  {
    TryPatternIgnoresCase(text, IdrPattern);
    TryPatternIgnoresCase(text, BarePattern);
    RateByPatternsCons(RatePatterns, text);
    RateByPatternsCons(RatePatterns, Lower(text));
    assert RatePatterns[1..] == [BarePattern];
  }

  /** The IDR pattern is tried first: when its leftmost match yields a rate,
      that rate is the answer whatever the bare pattern would find;
      otherwise the bare pattern's leftmost match decides, and `None` comes
      out when neither yields one. */
  lemma RateInOrder(text: string)
    ensures TryPattern(text, IdrPattern).Some? ==> RateIn(text) == TryPattern(text, IdrPattern)
    ensures TryPattern(text, IdrPattern).None? ==> RateIn(text) == TryPattern(text, BarePattern)
  {
    RateByPatternsCons(RatePatterns, text);
    assert RatePatterns[0] == IdrPattern && RatePatterns[1..] == [BarePattern];
  }

  /** Whatever the patterns, a rate found is a formatted number. */
  lemma {:induction false} RateByPatternsFormatted(ps: seq<seq<Elem>>, text: string)
    ensures RateByPatterns(ps, text).Some? ==> exists v: Decimal :: RateByPatterns(ps, text).value == FormatRate(v)
    decreases |ps|
  {
    if ps != [] {
      RateByPatternsFormatted(ps[1..], text);
    }
  }

  /** A found rate is `"1 USD = IDR "` and an amount that reads back, commas
      removed, as exactly the hundredths it shows. */
  lemma RateReadsBack(text: string)
    requires RateIn(text).Some?
    ensures exists c: nat :: (RateIn(text).value == RatePrefix + Amount(c)
                              && ParseFloat(Remove(Amount(c), ',')) == Some(Decimal(c, 2)))
  {
    RateByPatternsFormatted(RatePatterns, text);
    var v :| RateIn(text).value == FormatRate(v);
    AmountRoundTrip(Cents(v));
  }

  // -------------------------------------------------------------- example

  /** A result text as `chat` hands it over, lower-cased. */
  const ExampleText := "1 usd = 15,750.25 idr"

  /** A literal without upper-case letters that stands in the text occurs there. */
  lemma LiteralHere(s: string, p: nat, lit: string)
    requires p + |lit| <= |s| && s[p..p + |lit|] == lit
    requires forall i :: 0 <= i < |lit| ==> !('A' <= lit[i] <= 'Z')
    ensures LiteralAt(s, p, lit)
  {
    assert Lower(lit) == lit;
  }

  /** Matching an element that is not the group, then the rest. */
  lemma MatchStep(s: string, p: nat, pat: seq<Elem>, q: nat)
    requires p <= |s| && pat != [] && !pat[0].Capture? && Step(s, p, pat[0]) == Some(q)
    ensures q <= |s| && MatchAt(s, p, pat) == MatchAt(s, q, pat[1..])
  {
  }

  lemma ExampleLeadSteps()
    ensures Step(ExampleText, 0, Lit("1")) == Some(1)
    ensures Step(ExampleText, 1, Opt(".00")) == Some(1)
    ensures Step(ExampleText, 1, Spaces) == Some(2)
  {
    var t := ExampleText;
    LiteralHere(t, 0, "1");
    assert Lower(t[1..4])[0] == ' ';
    assert SkipSpace(t, 2) == 2;
  }

  lemma ExampleCurrency()
    ensures Step(ExampleText, 2, Currency) == Some(5)
  {
    assert ExampleText[2..5] == "usd";
    LiteralHere(ExampleText, 2, "usd");
  }

  /** The `[\d,\.]` run ends at `q` when every character before it is in
      the class and the one at `q` is not. */
  lemma {:induction false} RunEndIs(s: string, p: nat, q: nat)
    requires p <= q <= |s| && (q == |s| || !IsRateChar(s[q]))
    requires forall k :: p <= k < q ==> IsRateChar(s[k])
    ensures RunEnd(s, p) == q
    decreases q - p
  {
    if p < q {
      RunEndIs(s, p + 1, q);
    }
  }

  lemma ExampleSpaceSteps()
    ensures Step(ExampleText, 5, Spaces) == Some(6)
    ensures Step(ExampleText, 7, Spaces) == Some(8)
  {
    var t := ExampleText;
    assert SkipSpace(t, 6) == 6;
    assert SkipSpace(t, 8) == 8;
  }

  lemma ExampleEquals()
    ensures Step(ExampleText, 6, Lit("=")) == Some(7)
  {
    LiteralHere(ExampleText, 6, "=");
  }

  lemma ExampleGroup()
    ensures Step(ExampleText, 8, Capture) == Some(17)
  {
    var t := ExampleText;
    assert t[8..17] == "15,750.25";
    RunEndIs(t, 8, 17);
  }

  lemma ExampleAfterGroup()
    ensures MatchAt(ExampleText, 17, [Spaces, Target]) == Some(Outcome(21, None))
  {
    var t, c := ExampleText, [Spaces, Target];
    ExampleTargetSteps();
    assert c[1..] == [Target];
    MatchStep(t, 17, c, 18);
    MatchStep(t, 18, [Target], 21);
  }

  lemma ExampleTargetSteps()
    ensures Step(ExampleText, 17, Spaces) == Some(18)
    ensures Step(ExampleText, 18, Target) == Some(21)
  {
    var t := ExampleText;
    assert SkipSpace(t, 18) == 18;
    LiteralHere(t, 18, "idr");
  }

  lemma ExampleHead()
    ensures MatchAt(ExampleText, 0, RateHead) == Some(Outcome(6, None))
  {
    var t, h := ExampleText, RateHead;
    ExampleLeadSteps();
    ExampleCurrency();
    ExampleSpaceSteps();
    assert h[0] == Lit("1") && h[1..][0] == Opt(".00") && h[1..][1..][0] == Spaces;
    assert h[1..][1..][1..][0] == Currency && h[1..][1..][1..][1..] == [Spaces];
    MatchStep(t, 0, h, 1);
    MatchStep(t, 1, h[1..], 1);
    MatchStep(t, 1, h[1..][1..], 2);
    MatchStep(t, 2, h[1..][1..][1..], 5);
    MatchStep(t, 5, [Spaces], 6);
  }

  lemma ExampleTail()
    ensures MatchAt(ExampleText, 6, [Lit("="), Spaces, Capture] + [Spaces, Target])
      == Some(Outcome(21, Some(Group(8, 17))))
  {
    var t := ExampleText;
    var r := [Lit("="), Spaces, Capture] + [Spaces, Target];
    ExampleSpaceSteps();
    ExampleEquals();
    assert r[0] == Lit("=") && r[1..][0] == Spaces && r[1..][1..] == [Capture, Spaces, Target];
    MatchStep(t, 6, r, 7);
    MatchStep(t, 7, r[1..], 8);
    var c := [Capture, Spaces, Target];
    assert c[1..] == [Spaces, Target];
    ExampleGroup();
    ExampleAfterGroup();
  }

  /** The IDR pattern matches the example text from its first character,
      with "15,750.25" as its group. */
  lemma ExampleMatch()
    ensures ReSearch(ExampleText, IdrPattern) == Some(Match(0, Outcome(21, Some(Group(8, 17)))))
  {
    ExampleHead();
    assert IdrPattern == RateHead + ([Lit("="), Spaces, Capture] + [Spaces, Target]);
    MatchSplit(ExampleText, 0, RateHead, [Lit("="), Spaces, Capture] + [Spaces, Target]);
    ExampleTail();
  }

  /** The example's capture, its comma removed. */
  lemma ExampleCleaned()
    ensures Remove(Captured(ExampleText, Group(8, 17)), ',') == "15750.25"
  {
    assert Captured(ExampleText, Group(8, 17)) == "15,750.25";
    CleanedLiteral();
  }

  lemma CleanedLiteral()
    ensures Remove("15,750.25", ',') == "15750.25"
  {
    var a, b := "15", "750.25";
    CleanedParts(a, b);
    RemoveBetween(a, ',', b);
  }

  lemma CleanedParts(a: string, b: string)
    requires a == "15" && b == "750.25"
    ensures a + [','] + b == "15,750.25" && a + b == "15750.25"
    ensures ',' !in a && ',' !in b
  {
  }

  /** `extract_exchange_rate("1 usd = 15,750.25 idr")` is
      `"1 USD = IDR 15,750.25"`. */
  lemma ExtractExample()
    ensures RateIn(ExampleText) == Some("1 USD = IDR 15,750.25")
  {
    ExampleMatch();
    ExampleCleaned();
    ParseExample();
    FormatExample();
    RateInOrder(ExampleText);
  }
}
