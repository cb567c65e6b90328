/** The two regular expressions of `extract_exchange_rate` (app/main.py),
    searched with `re.search(pattern, text, re.IGNORECASE)`:

      1(?:\.00)?\s*(?:USD|US dollar)\s*=\s*([\d,\.]+)\s*(?:IDR|Indonesian rupiah)
      1(?:\.00)?\s*(?:USD|US dollar)\s*=\s*([\d,\.]+)

    A pattern is a sequence of elements, matched left to right, each one
    greedily and without backtracking. For these two patterns that is what
    the backtracking regex engine computes: every optional part, every
    repetition and every alternative is followed by something its
    alternatives cannot start with (`.00` by `\s` or `u`, `\s*` by `u`, `=`,
    a digit or `i`, `usd` and `us dollar` differ at their third letter, and
    the number by `\s`, `i` or the end of the pattern), so giving back a
    character never lets the rest match. `re.search` is the first position
    where the pattern matches. */
module RateMatcher {
  import opened Wrappers
  import opened PyStr

  /** `\s` in a `str` pattern: the characters `str.isspace` accepts. */
  predicate IsRegexSpace(c: char) {
    IsSpace(c)
  }

  /** `\d`, restricted to the ASCII digits. */
  predicate IsDigit(c: char) {
    '0' <= c <= '9'
  }

  /** The class `[\d,\.]` of the capture. */
  predicate IsRateChar(c: char) {
    IsDigit(c) || c == ',' || c == '.'
  }

  /** One element of a pattern. Literals are written in lower case and
      compared ignoring case. */
  datatype Elem =
    | Lit(text: string)          // a literal
    | Opt(text: string)          // `(?:text)?`
    | Spaces                     // `\s*`
    | OneOf(alts: seq<string>)   // `(?:a|b|...)`
    | Capture                    // `([\d,\.]+)`, group 1

  /** Where the capture group matched: `s[start..end]`. */
  datatype Group = Group(start: nat, end: nat)

  /** Where a match at some position ends, and its group, if the pattern has one. */
  datatype Outcome = Outcome(end: nat, group: Option<Group>)

  /** A match found by `re.search`: where it starts, and its outcome. */
  datatype Match = Match(at: nat, outcome: Outcome)

  const Currency := OneOf(["usd", "us dollar"])
  const Target := OneOf(["idr", "indonesian rupiah"])

  /** `1(?:\.00)?\s*(?:USD|US dollar)\s*`, the part of both patterns before the `=`. */
  const RateHead: seq<Elem> := [Lit("1"), Opt(".00"), Spaces, Currency, Spaces]

  /** `1(?:\.00)?\s*(?:USD|US dollar)\s*=\s*([\d,\.]+)` */
  const BarePattern: seq<Elem> := RateHead + [Lit("="), Spaces, Capture]

  /** The same, followed by `\s*(?:IDR|Indonesian rupiah)`. */
  const IdrPattern: seq<Elem> := BarePattern + [Spaces, Target]

  /** The patterns in the order `extract_exchange_rate` tries them. */
  const RatePatterns: seq<seq<Elem>> := [IdrPattern, BarePattern]

  /** The lower-case literal `lit` occurs at `p`, ignoring case. */
  predicate LiteralAt(s: string, p: nat, lit: string) {
    p + |lit| <= |s| && Lower(s[p..p + |lit|]) == lit
  }

  /** End of the run of `\s` starting at `p` (`\s*`, greedy). */
  function SkipSpace(s: string, p: nat): (q: nat)
    requires p <= |s|
    ensures p <= q <= |s|
    ensures forall k :: p <= k < q ==> IsRegexSpace(s[k])
    ensures q < |s| ==> !IsRegexSpace(s[q])
    decreases |s| - p
  {
    if p < |s| && IsRegexSpace(s[p]) then SkipSpace(s, p + 1) else p
  }

  /** End of the run of `[\d,\.]` starting at `p`. */
  function RunEnd(s: string, p: nat): (q: nat)
    requires p <= |s|
    ensures p <= q <= |s|
    ensures forall k :: p <= k < q ==> IsRateChar(s[k])
    ensures q < |s| ==> !IsRateChar(s[q])
    decreases |s| - p
  {
    if p < |s| && IsRateChar(s[p]) then RunEnd(s, p + 1) else p
  }

  /** After the first alternative that occurs at `p`. */
  function FirstAlt(s: string, p: nat, alts: seq<string>): (q: Option<nat>)
    ensures q.Some? ==> exists i :: 0 <= i < |alts| && LiteralAt(s, p, alts[i]) && q.value == p + |alts[i]|
    ensures q.None? ==> forall i :: 0 <= i < |alts| ==> !LiteralAt(s, p, alts[i])
  {
    if alts == [] then None
    else if LiteralAt(s, p, alts[0]) then Some(p + |alts[0]|)
    else
      var q := FirstAlt(s, p, alts[1..]);
      assert forall i :: 1 <= i < |alts| ==> alts[i] == alts[1..][i - 1];
      q
  }

  /** Where one element matched at `p` ends, if it matches there. */
  function Step(s: string, p: nat, e: Elem): (q: Option<nat>)
    requires p <= |s|
    ensures q.Some? ==> p <= q.value <= |s|
  {
    match e
    case Lit(t) => if LiteralAt(s, p, t) then Some(p + |t|) else None
    case Opt(t) => if LiteralAt(s, p, t) then Some(p + |t|) else Some(p)
    case Spaces => Some(SkipSpace(s, p))
    case OneOf(alts) => FirstAlt(s, p, alts)
    case Capture => var q := RunEnd(s, p); if q == p then None else Some(q)
  }

  /** `pat` matched at exactly position `p`, if it matches there. */
  function MatchAt(s: string, p: nat, pat: seq<Elem>): (o: Option<Outcome>)
    requires p <= |s|
    ensures o.Some? ==> p <= o.value.end <= |s|
    ensures o.Some? && o.value.group.Some? ==> p <= o.value.group.value.start <= o.value.group.value.end <= o.value.end
    decreases |pat|
  {
    if pat == [] then Some(Outcome(p, None))
    else
      match Step(s, p, pat[0])
      case None => None
      case Some(q) =>
        match MatchAt(s, q, pat[1..])
        case None => None
        case Some(o) => Some(if pat[0].Capture? then o.(group := Some(Group(p, q))) else o)
  }

  /** The outcome of trying the pattern at every position of the text,
      the end included. */
  function Attempts(s: string, pat: seq<Elem>): (hits: seq<Option<Outcome>>)
    ensures |hits| == |s| + 1
    ensures forall q :: 0 <= q <= |s| ==> hits[q] == MatchAt(s, q, pat)
  {
    seq(|s| + 1, q requires 0 <= q <= |s| => MatchAt(s, q, pat))
  }

  /** The first position from `p` on where an attempt succeeded, or `|hits|`. */
  function FirstHit(hits: seq<Option<Outcome>>, p: nat): (k: nat)
    requires p <= |hits|
    ensures p <= k <= |hits|
    ensures k < |hits| ==> hits[k].Some?
    ensures forall q :: p <= q < k ==> hits[q].None?
    decreases |hits| - p
  {
    if p == |hits| || hits[p].Some? then p else FirstHit(hits, p + 1)
  }

  /** `re.search(pat, s, re.IGNORECASE)`: the leftmost match. */
  function ReSearch(s: string, pat: seq<Elem>): (m: Option<Match>)
    ensures m.Some? ==> m.value.at <= |s| && MatchAt(s, m.value.at, pat) == Some(m.value.outcome)
    ensures m.Some? ==> forall q :: 0 <= q < m.value.at ==> MatchAt(s, q, pat).None?
    ensures m.None? ==> forall q :: 0 <= q <= |s| ==> MatchAt(s, q, pat).None?
  {
    var hits := Attempts(s, pat);
    var k := FirstHit(hits, 0);
    if k < |hits| then Some(Match(k, hits[k].value)) else None
  }

  // ------------------------------------------------------------ the group

  /** The group lies inside the text and is a maximal non-empty run of
      `[\d,\.]` that starts where the match starts or later. */
  predicate GroupShape(s: string, p: nat, g: Group) {
    p <= g.start < g.end <= |s|
    && (forall k :: g.start <= k < g.end ==> IsRateChar(s[k]))
    && (g.end == |s| || !IsRateChar(s[g.end]))
  }

  /** A pattern that holds a `Capture` yields a group when it matches, and
      that group is a maximal run of number characters. */
  lemma {:induction false} GroupOfMatch(s: string, p: nat, pat: seq<Elem>)
    requires p <= |s| && MatchAt(s, p, pat).Some?
    ensures Capture in pat ==> MatchAt(s, p, pat).value.group.Some?
    ensures MatchAt(s, p, pat).value.group.Some? ==> GroupShape(s, p, MatchAt(s, p, pat).value.group.value)
    decreases |pat|
  {
    if pat != [] {
      var q := Step(s, p, pat[0]).value;
      GroupOfMatch(s, q, pat[1..]);
      assert Capture in pat ==> pat[0] == Capture || Capture in pat[1..];
    }
  }

  /** Matching `a + b`, when `a` holds no group, is matching `b` where the
      match of `a` ends. */
  lemma {:induction false} MatchSplit(s: string, p: nat, a: seq<Elem>, b: seq<Elem>)
    requires p <= |s| && MatchAt(s, p, a).Some? && Capture !in a
    ensures MatchAt(s, p, a + b) == MatchAt(s, MatchAt(s, p, a).value.end, b)
    decreases |a|
  {
    if a == [] {
      assert a + b == b;
    } else {
      assert (a + b)[0] == a[0] && (a + b)[1..] == a[1..] + b;
      var q := Step(s, p, a[0]).value;
      assert Capture !in a[1..];
      MatchSplit(s, q, a[1..], b);
    }
  }

  /** The tail `=\s*([\d,\.]+)` of both patterns: the group starts right
      after the `=` and the whitespace that follows it. */
  lemma GroupAfterEquals(s: string, p: nat, rest: seq<Elem>)
    requires p <= |s| && MatchAt(s, p, [Lit("="), Spaces, Capture] + rest).Some?
    ensures MatchAt(s, p, [Lit("="), Spaces, Capture] + rest).value.group.Some?
    ensures var g := MatchAt(s, p, [Lit("="), Spaces, Capture] + rest).value.group.value;
      p < g.start <= |s| && (s[g.start - 1] == '=' || IsRegexSpace(s[g.start - 1]))
  {
    var pat := [Lit("="), Spaces, Capture] + rest;
    var pat1 := pat[1..];
    var pat2 := pat1[1..];
    assert pat[0] == Lit("=") && pat1[0] == Spaces && pat2[0] == Capture && pat2[1..] == rest;
    assert Step(s, p, pat[0]).Some?;
    assert LiteralAt(s, p, "=");
    assert Lower(s[p..p + 1])[0] == LowerChar(s[p]);
    var q := SkipSpace(s, p + 1);
    assert MatchAt(s, p, pat) == MatchAt(s, p + 1, pat1);
    assert MatchAt(s, p + 1, pat1) == MatchAt(s, q, pat2);
    var r := RunEnd(s, q);
    assert MatchAt(s, q, pat2).value.group == Some(Group(q, r));
  }

  /** Whatever follows the capture, a pattern `RateHead` + `=\s*([\d,\.]+)`
      + `tail` puts its group right after `=` and optional whitespace. */
  lemma HeadThenEquals(s: string, p: nat, tail: seq<Elem>)
    requires p <= |s| && MatchAt(s, p, RateHead + ([Lit("="), Spaces, Capture] + tail)).Some?
    ensures MatchAt(s, p, RateHead + ([Lit("="), Spaces, Capture] + tail)).value.group.Some?
    ensures var g := MatchAt(s, p, RateHead + ([Lit("="), Spaces, Capture] + tail)).value.group.value;
      p < g.start && (s[g.start - 1] == '=' || IsRegexSpace(s[g.start - 1])) && GroupShape(s, p, g)
  {
    var rest := [Lit("="), Spaces, Capture] + tail;
    PrefixMatches(s, p, RateHead, rest);
    var e := MatchAt(s, p, RateHead).value.end;
    MatchSplit(s, p, RateHead, rest);
    GroupAfterEquals(s, e, tail);
    GroupOfMatch(s, e, rest);
  }

  /** In both patterns of `extract_exchange_rate` the group follows `=` or
      whitespace, so together with `GroupShape` it is the whole run of
      `[\d,\.]` found there: it can be extended neither left nor right. */
  lemma RateGroupStart(s: string, p: nat, pat: seq<Elem>)
    requires pat in RatePatterns && p <= |s| && MatchAt(s, p, pat).Some?
    ensures MatchAt(s, p, pat).value.group.Some?
    ensures var g := MatchAt(s, p, pat).value.group.value;
      p < g.start && (s[g.start - 1] == '=' || IsRegexSpace(s[g.start - 1])) && !IsRateChar(s[g.start - 1])
      && GroupShape(s, p, g)
  {
    if pat == BarePattern {
      assert pat == RateHead + ([Lit("="), Spaces, Capture] + []);
      HeadThenEquals(s, p, []);
    } else {
      assert pat == RateHead + ([Lit("="), Spaces, Capture] + [Spaces, Target]);
      HeadThenEquals(s, p, [Spaces, Target]);
    }
  }

  /** The text of group 1: `match.group(1)`. */
  function Captured(s: string, g: Group): (c: string)
    requires g.start <= g.end <= |s|
    ensures |c| == g.end - g.start
    ensures forall k :: 0 <= k < |c| ==> c[k] == s[g.start + k]
  {
    s[g.start..g.end]
  }

  // ------------------------------------------------------------ properties

  /** Matching `a + b` at `p` matches `a` at `p` first, and the group of
      `a`, when it has one, is the group of the whole. */
  lemma {:induction false} PrefixMatches(s: string, p: nat, a: seq<Elem>, b: seq<Elem>)
    requires p <= |s| && MatchAt(s, p, a + b).Some?
    ensures MatchAt(s, p, a).Some?
    ensures MatchAt(s, p, a).value.group.Some? ==> MatchAt(s, p, a + b).value.group == MatchAt(s, p, a).value.group
    decreases |a|
  {
    if a != [] {
      assert (a + b)[0] == a[0] && (a + b)[1..] == a[1..] + b;
      var q := Step(s, p, a[0]).value;
      PrefixMatches(s, q, a[1..], b);
    }
  }

  /** Wherever the pattern with the `IDR` suffix matches, the bare pattern
      matches too, with the same group. */
  lemma IdrImpliesBare(s: string, p: nat)
    requires p <= |s| && MatchAt(s, p, IdrPattern).Some?
    ensures MatchAt(s, p, BarePattern).Some?
    ensures MatchAt(s, p, BarePattern).value.group == MatchAt(s, p, IdrPattern).value.group
  {
    PrefixMatches(s, p, BarePattern, [Spaces, Target]);
    GroupOfMatch(s, p, BarePattern);
    assert BarePattern[7] == Capture;
  }

  lemma LowerCharFixed(c: char)
    ensures LowerChar(LowerChar(c)) == LowerChar(c)
    ensures IsRegexSpace(LowerChar(c)) <==> IsRegexSpace(c)
    ensures IsRateChar(LowerChar(c)) <==> IsRateChar(c)
    ensures IsRateChar(c) ==> LowerChar(c) == c
  {
  }

  lemma LiteralIgnoresCase(s: string, p: nat, lit: string)
    ensures LiteralAt(Lower(s), p, lit) <==> LiteralAt(s, p, lit)
  {
    if p + |lit| <= |s| {
      var t := s[p..p + |lit|];
      assert Lower(s)[p..p + |lit|] == Lower(t);
      forall k | 0 <= k < |t| ensures Lower(Lower(t))[k] == Lower(t)[k] {
        LowerCharFixed(t[k]);
      }
      assert Lower(Lower(t)) == Lower(t);
    }
  }

  lemma {:induction false} SkipSpaceIgnoresCase(s: string, p: nat)
    requires p <= |s|
    ensures SkipSpace(Lower(s), p) == SkipSpace(s, p)
    decreases |s| - p
  {
    if p < |s| {
      LowerCharFixed(s[p]);
      SkipSpaceIgnoresCase(s, p + 1);
    }
  }

  lemma {:induction false} RunEndIgnoresCase(s: string, p: nat)
    requires p <= |s|
    ensures RunEnd(Lower(s), p) == RunEnd(s, p)
    decreases |s| - p
  {
    if p < |s| {
      LowerCharFixed(s[p]);
      RunEndIgnoresCase(s, p + 1);
    }
  }

  lemma {:induction false} FirstAltIgnoresCase(s: string, p: nat, alts: seq<string>)
    ensures FirstAlt(Lower(s), p, alts) == FirstAlt(s, p, alts)
  {
    if alts != [] {
      LiteralIgnoresCase(s, p, alts[0]);
      FirstAltIgnoresCase(s, p, alts[1..]);
    }
  }

  lemma StepIgnoresCase(s: string, p: nat, e: Elem)
    requires p <= |s|
    ensures Step(Lower(s), p, e) == Step(s, p, e)
  {
    match e
    case Lit(t) => LiteralIgnoresCase(s, p, t);
    case Opt(t) => LiteralIgnoresCase(s, p, t);
    case Spaces => SkipSpaceIgnoresCase(s, p);
    case OneOf(alts) => FirstAltIgnoresCase(s, p, alts);
    case Capture => RunEndIgnoresCase(s, p);
  }

  /** Matching ignores case (`re.IGNORECASE`): lower-casing the text gives
      the same outcome at every position. */
  lemma {:induction false} MatchIgnoresCase(s: string, p: nat, pat: seq<Elem>)
    requires p <= |s|
    ensures MatchAt(Lower(s), p, pat) == MatchAt(s, p, pat)
    decreases |pat|
  {
    if pat != [] {
      StepIgnoresCase(s, p, pat[0]);
      if Step(s, p, pat[0]).Some? {
        MatchIgnoresCase(s, Step(s, p, pat[0]).value, pat[1..]);
      }
    }
  }

  /** Every attempt comes out the same on the lower-cased text. */
  lemma AttemptsIgnoreCase(s: string, pat: seq<Elem>)
    ensures Attempts(Lower(s), pat) == Attempts(s, pat)
  {
    forall q | 0 <= q <= |s| ensures Attempts(Lower(s), pat)[q] == Attempts(s, pat)[q] {
      MatchIgnoresCase(s, q, pat);
    }
  }

  /** `re.search` with `re.IGNORECASE` finds the same match in the text and
      in its lower-cased form. */
  lemma SearchIgnoresCase(s: string, pat: seq<Elem>)
    ensures ReSearch(Lower(s), pat) == ReSearch(s, pat)
  {
    AttemptsIgnoreCase(s, pat);
  }

  /** The group of a match holds the same characters in the text and in
      its lower-cased form. */
  lemma GroupIgnoresCase(s: string, pat: seq<Elem>)
    ensures ReSearch(s, pat).Some? && ReSearch(s, pat).value.outcome.group.Some? ==>
      var g := ReSearch(s, pat).value.outcome.group.value;
      g.start <= g.end <= |s| && Captured(Lower(s), g) == Captured(s, g)
  {
    var m := ReSearch(s, pat);
    if m.Some? && m.value.outcome.group.Some? {
      GroupOfMatch(s, m.value.at, pat);
      CaptureIgnoresCase(s, m.value.outcome.group.value);
    }
  }

  /** A run of number characters is the same in the lower-cased text. */
  lemma CaptureIgnoresCase(s: string, g: Group)
    requires g.start <= g.end <= |s|
    requires forall k :: g.start <= k < g.end ==> IsRateChar(s[k])
    ensures Captured(Lower(s), g) == Captured(s, g)
  {
    var c, d := Captured(Lower(s), g), Captured(s, g);
    forall k | 0 <= k < |c| ensures c[k] == d[k] {
      LowerCharFixed(s[g.start + k]);
    }
  }
}
