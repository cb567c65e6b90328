/** `clean_text` of app/agents/web/utils.py: split the raw text into lines,
    strip each line, cut each line at every "  " (two spaces), strip each
    piece, drop the empty pieces and join the rest with single spaces. */
module WebUtils {
  import opened PyStr

  /** The two-space separator the text is cut at. */
  const Gap := "  "

  /** `clean_text(text)` */
  function CleanText(text: string): string {
    Join(" ", NonEmpty(StripEach(SplitEach(StripEach(SplitLines(text)), Gap))))
  }

  /** `(x.strip() for x in xs)` */
  function StripEach(xs: seq<string>): (r: seq<string>)
    ensures |r| == |xs|
    ensures forall i :: 0 <= i < |xs| ==> r[i] == Strip(xs[i])
  {
    if xs == [] then [] else [Strip(xs[0])] + StripEach(xs[1..])
  }

  /** `(p for x in xs for p in x.split(sep))` */
  function SplitEach(xs: seq<string>, sep: string): seq<string>
    requires |sep| > 0
  {
    if xs == [] then [] else Split(xs[0], sep) + SplitEach(xs[1..], sep)
  }

  /** `(x for x in xs if x)` */
  function NonEmpty(xs: seq<string>): seq<string> {
    if xs == [] then [] else (if xs[0] == [] then [] else [xs[0]]) + NonEmpty(xs[1..])
  }

  // ------------------------------------------------------------ vocabulary

  /** The characters of `s` that are not whitespace, in order. */
  function NonSpace(s: string): string {
    if s == [] then [] else (if IsSpace(s[0]) then [] else [s[0]]) + NonSpace(s[1..])
  }

  predicate NoDoubleSpace(s: string) {
    forall i :: 0 <= i < |s| - 1 ==> s[i] != ' ' || s[i + 1] != ' '
  }

  /** What `clean_text` produces: one line, no two spaces in a row, no
      whitespace at either end. */
  predicate Tidy(s: string) {
    NoLineBreak(s) && NoDoubleSpace(s) && Trimmed(s)
  }

  /** A piece that survives the filter: a non-empty tidy string. */
  predicate Chunk(s: string) {
    s != [] && Tidy(s)
  }

  predicate AllLinesFlat(xs: seq<string>) {
    forall i :: 0 <= i < |xs| ==> NoLineBreak(xs[i])
  }

  predicate AllFlatAndSingleSpaced(xs: seq<string>) {
    forall i :: 0 <= i < |xs| ==> NoLineBreak(xs[i]) && NoDoubleSpace(xs[i])
  }

  predicate AllTrimmed(xs: seq<string>) {
    forall i :: 0 <= i < |xs| ==> Trimmed(xs[i])
  }

  predicate AllChunks(xs: seq<string>) {
    forall i :: 0 <= i < |xs| ==> Chunk(xs[i])
  }

  // ---------------------------------------------- what each stage preserves

  lemma {:induction false} NonSpaceAppend(a: string, b: string)
    ensures NonSpace(a + b) == NonSpace(a) + NonSpace(b)
    decreases |a|
  {
    if a != [] {
      assert (a + b)[1..] == a[1..] + b;
      NonSpaceAppend(a[1..], b);
    } else {
      assert a + b == b;
    }
  }

  lemma {:induction false} NonSpaceEmpty(s: string)
    ensures NonSpace(s) == [] <==> AllSpace(s)
    decreases |s|
  {
    if s != [] {
      NonSpaceEmpty(s[1..]);
      assert AllSpace(s) <==> IsSpace(s[0]) && AllSpace(s[1..]);
    }
  }

  lemma {:induction false} ConcatAppend(a: seq<string>, b: seq<string>)
    ensures Concat(a + b) == Concat(a) + Concat(b)
    decreases |a|
  {
    if a != [] {
      assert (a + b)[1..] == a[1..] + b;
      ConcatAppend(a[1..], b);
    } else {
      assert a + b == b;
    }
  }

  lemma ConcatSingle(s: string)
    ensures Concat([s]) == s
  {
    assert [s][1..] == [];
  }

  /** Splitting into lines drops only line boundaries, which are whitespace. */
  lemma {:induction false} SplitLinesNonSpace(s: string)
    ensures NonSpace(Concat(SplitLines(s))) == NonSpace(s)
    decreases |s|
  {
    if s != [] {
      var k := LineEnd(s);
      if k == |s| {
        ConcatSingle(s);
      } else {
        var j := NextLine(s, k);
        var line, rest := s[..k], s[j..];
        var more := SplitLines(rest);
        SplitLinesNonSpace(rest);
        assert SplitLines(s) == [line] + more;
        ConcatCons(line, more);
        NonSpaceEmpty(s[k..j]);
        Slices3(s, k, j);
        NonSpaceSkip(line, s[k..j], rest);
        NonSpaceAppend(line, Concat(more));
      }
    }
  }

  /** Dropping a run of whitespace from the middle keeps the non-whitespace. */
  lemma NonSpaceSkip(a: string, g: string, r: string)
    requires NonSpace(g) == []
    ensures NonSpace(a + g + r) == NonSpace(a) + NonSpace(r)
  {
    NonSpaceAppend(a + g, r);
    NonSpaceAppend(a, g);
    assert NonSpace(a) + [] == NonSpace(a);
  }

  lemma ConcatCons(x: string, xs: seq<string>)
    ensures Concat([x] + xs) == x + Concat(xs)
  {
    assert ([x] + xs)[0] == x && ([x] + xs)[1..] == xs;
  }

  /** Every line `splitlines` yields is free of line boundaries. */
  lemma {:induction false} SplitLinesFlat(s: string)
    ensures AllLinesFlat(SplitLines(s))
    decreases |s|
  {
    if s != [] {
      var k := LineEnd(s);
      if k < |s| {
        SplitLinesFlat(s[NextLine(s, k)..]);
      }
    }
  }

  /** `strip` drops only whitespace. */
  lemma StripNonSpace(s: string)
    ensures NonSpace(Strip(s)) == NonSpace(s)
  {
    StripStartNonSpace(s);
    StripEndNonSpace(StripStart(s));
  }

  lemma {:induction false} StripStartNonSpace(s: string)
    ensures NonSpace(StripStart(s)) == NonSpace(s)
    decreases |s|
  {
    if s != [] && IsSpace(s[0]) {
      StripStartNonSpace(s[1..]);
    }
  }

  lemma {:induction false} StripEndNonSpace(s: string)
    ensures NonSpace(StripEnd(s)) == NonSpace(s)
    decreases |s|
  {
    if s != [] && IsSpace(s[|s| - 1]) {
      var t, last := s[..|s| - 1], s[|s| - 1];
      StripEndNonSpace(t);
      assert s == t + [last];
      NonSpaceAppend(t, [last]);
      assert NonSpace([last]) == [];
    }
  }

  /** `strip` keeps a slice, so it keeps "no line boundary" and "no double space". */
  lemma StripKeepsFlat(s: string)
    ensures NoLineBreak(s) ==> NoLineBreak(Strip(s))
    ensures NoDoubleSpace(s) ==> NoDoubleSpace(Strip(s))
  {
    var k := StripOffset(s);
    SliceKeepsFlat(s, k, k + |Strip(s)|);
  }

  lemma SliceKeepsFlat(s: string, i: nat, j: nat)
    requires i <= j <= |s|
    ensures NoLineBreak(s) ==> NoLineBreak(s[i..j])
    ensures NoDoubleSpace(s) ==> NoDoubleSpace(s[i..j])
  {
    var r := s[i..j];
    if NoLineBreak(s) {
      forall p | 0 <= p < |r| ensures !IsLineBreak(r[p]) {
        assert r[p] == s[i + p];
      }
    }
    if NoDoubleSpace(s) {
      forall p | 0 <= p < |r| - 1 ensures r[p] != ' ' || r[p + 1] != ' ' {
        assert r[p] == s[i + p] && r[p + 1] == s[i + p + 1];
      }
    }
  }

  /** An occurrence of "  " is a space followed by a space. */
  lemma GapAt(s: string, i: nat)
    requires i + 1 < |s|
    ensures OccursAt(s, Gap, i) <==> s[i] == ' ' && s[i + 1] == ' '
  {
    assert s[i..i + 2] == [s[i], s[i + 1]];
  }

  lemma NoGapNoDoubleSpace(s: string)
    requires forall i :: 0 <= i < |s| ==> !OccursAt(s, Gap, i)
    ensures NoDoubleSpace(s)
  {
    forall i | 0 <= i < |s| - 1 ensures s[i] != ' ' || s[i + 1] != ' ' {
      GapAt(s, i);
    }
  }

  lemma NoDoubleSpaceNoGap(s: string)
    requires NoDoubleSpace(s)
    ensures forall i :: 0 <= i < |s| ==> !OccursAt(s, Gap, i)
  {
    forall i | 0 <= i < |s| ensures !OccursAt(s, Gap, i) {
      if i + 1 < |s| { GapAt(s, i); }
    }
  }

  /** The pieces of `split("  ")` never hold two spaces in a row, and they
      inherit "no line boundary" from the string that was split. */
  lemma {:induction false} SplitPiecesFlat(s: string)
    ensures forall i :: 0 <= i < |Split(s, Gap)| ==> NoDoubleSpace(Split(s, Gap)[i])
    ensures NoLineBreak(s) ==> AllLinesFlat(Split(s, Gap))
    decreases |s|
  {
    var k := IndexOf(s, Gap);
    if k == |s| {
      NoGapNoDoubleSpace(s);
    } else {
      var head := s[..k];
      forall i | 0 <= i < |head| ensures !OccursAt(head, Gap, i) {
        if i + 2 <= |head| {
          assert head[i..i + 2] == s[i..i + 2];
          assert !OccursAt(s, Gap, i);
        }
      }
      NoGapNoDoubleSpace(head);
      SplitPiecesFlat(s[k + 2..]);
    }
  }

  /** `split("  ")` drops only spaces. */
  lemma {:induction false} SplitNonSpace(s: string)
    ensures NonSpace(Concat(Split(s, Gap))) == NonSpace(s)
    decreases |s|
  {
    var k := IndexOf(s, Gap);
    if k == |s| {
      ConcatSingle(s);
    } else {
      var piece, rest := s[..k], s[k + 2..];
      var more := Split(rest, Gap);
      SplitNonSpace(rest);
      assert Split(s, Gap) == [piece] + more;
      ConcatCons(piece, more);
      assert s == piece + Gap + rest;
      assert NonSpace(Gap) == [];
      NonSpaceSkip(piece, Gap, rest);
      NonSpaceAppend(piece, Concat(more));
    }
  }

  lemma {:induction false} StripEachNonSpace(xs: seq<string>)
    ensures NonSpace(Concat(StripEach(xs))) == NonSpace(Concat(xs))
    decreases |xs|
  {
    if xs != [] {
      StripEachNonSpace(xs[1..]);
      assert StripEach(xs)[1..] == StripEach(xs[1..]);
      StripNonSpace(xs[0]);
      NonSpaceAppend(Strip(xs[0]), Concat(StripEach(xs[1..])));
      NonSpaceAppend(xs[0], Concat(xs[1..]));
    }
  }

  lemma StripEachTrimmed(xs: seq<string>)
    ensures AllTrimmed(StripEach(xs))
  {
    var r := StripEach(xs);
    forall i | 0 <= i < |r| ensures Trimmed(r[i]) {
      assert r[i] == Strip(xs[i]);
    }
  }

  lemma StripEachFlat(xs: seq<string>)
    ensures AllLinesFlat(xs) ==> AllLinesFlat(StripEach(xs))
    ensures AllFlatAndSingleSpaced(xs) ==> AllFlatAndSingleSpaced(StripEach(xs))
  {
    var r := StripEach(xs);
    forall i | 0 <= i < |xs|
      ensures NoLineBreak(xs[i]) ==> NoLineBreak(r[i])
      ensures NoDoubleSpace(xs[i]) ==> NoDoubleSpace(r[i])
    {
      StripKeepsFlat(xs[i]);
    }
  }

  lemma {:induction false} SplitEachNonSpace(xs: seq<string>)
    ensures NonSpace(Concat(SplitEach(xs, Gap))) == NonSpace(Concat(xs))
    decreases |xs|
  {
    if xs != [] {
      SplitEachNonSpace(xs[1..]);
      ConcatAppend(Split(xs[0], Gap), SplitEach(xs[1..], Gap));
      NonSpaceAppend(Concat(Split(xs[0], Gap)), Concat(SplitEach(xs[1..], Gap)));
      SplitNonSpace(xs[0]);
      NonSpaceAppend(xs[0], Concat(xs[1..]));
    }
  }

  lemma {:induction false} SplitEachFlat(xs: seq<string>)
    requires AllLinesFlat(xs)
    ensures AllFlatAndSingleSpaced(SplitEach(xs, Gap))
    decreases |xs|
  {
    if xs != [] {
      SplitPiecesFlat(xs[0]);
      SplitEachFlat(xs[1..]);
      var a, b := Split(xs[0], Gap), SplitEach(xs[1..], Gap);
      assert SplitEach(xs, Gap) == a + b;
      forall i | 0 <= i < |a + b|
        ensures NoLineBreak((a + b)[i]) && NoDoubleSpace((a + b)[i])
      {
        if i < |a| { assert (a + b)[i] == a[i]; } else { assert (a + b)[i] == b[i - |a|]; }
      }
    }
  }

  lemma {:induction false} NonEmptyConcat(xs: seq<string>)
    ensures Concat(NonEmpty(xs)) == Concat(xs)
    decreases |xs|
  {
    if xs != [] {
      NonEmptyConcat(xs[1..]);
      var head := if xs[0] == [] then [] else [xs[0]];
      ConcatAppend(head, NonEmpty(xs[1..]));
      if xs[0] != [] { ConcatSingle(xs[0]); }
    }
  }

  /** Stripped, single-spaced, one-line pieces that survive the filter are chunks. */
  lemma {:induction false} NonEmptyChunks(xs: seq<string>)
    requires AllFlatAndSingleSpaced(xs)
    requires AllTrimmed(xs)
    ensures AllChunks(NonEmpty(xs))
    decreases |xs|
  {
    if xs != [] {
      NonEmptyChunks(xs[1..]);
      var head := if xs[0] == [] then [] else [xs[0]];
      var r := head + NonEmpty(xs[1..]);
      forall i | 0 <= i < |r| ensures Chunk(r[i]) {
        if i < |head| { assert r[i] == xs[0]; } else { assert r[i] == NonEmpty(xs[1..])[i - |head|]; }
      }
    }
  }

  /** Gluing two chunks with one space makes a longer tidy string. */
  lemma GlueTidy(a: string, b: string)
    requires Chunk(a) && Chunk(b)
    ensures Chunk(a + " " + b)
  {
    var s := a + " " + b;
    assert s[0] == a[0] && s[|s| - 1] == b[|b| - 1];
    forall i | 0 <= i < |s| ensures !IsLineBreak(s[i]) {
      if i < |a| { assert s[i] == a[i]; }
      else if i > |a| { assert s[i] == b[i - |a| - 1]; }
    }
    forall i | 0 <= i < |s| - 1 ensures s[i] != ' ' || s[i + 1] != ' ' {
      if i < |a| - 1 { assert s[i] == a[i] && s[i + 1] == a[i + 1]; }
      else if i == |a| - 1 { assert s[i] == a[|a| - 1]; }
      else if i == |a| { assert s[i + 1] == b[0]; }
      else { assert s[i] == b[i - |a| - 1] && s[i + 1] == b[i - |a|]; }
    }
  }

  lemma {:induction false} JoinTidy(xs: seq<string>)
    requires AllChunks(xs)
    ensures Tidy(Join(" ", xs))
    ensures xs != [] ==> Chunk(Join(" ", xs))
    decreases |xs|
  {
    if |xs| > 1 {
      JoinTidy(xs[1..]);
      assert Chunk(xs[0]);
      GlueTidy(xs[0], Join(" ", xs[1..]));
    } else if |xs| == 1 {
      assert Chunk(xs[0]);
    }
  }

  lemma {:induction false} JoinNonSpace(xs: seq<string>)
    ensures NonSpace(Join(" ", xs)) == NonSpace(Concat(xs))
    decreases |xs|
  {
    if |xs| == 1 {
      ConcatSingle(xs[0]);
      assert xs == [xs[0]];
    } else if |xs| > 1 {
      var head, rest := xs[0], xs[1..];
      JoinNonSpace(rest);
      assert Join(" ", xs) == head + " " + Join(" ", rest);
      assert NonSpace(" ") == [];
      NonSpaceSkip(head, " ", Join(" ", rest));
      assert Concat(xs) == head + Concat(rest);
      NonSpaceAppend(head, Concat(rest));
    }
  }

  // --------------------------------------------------- the promised results

  /** The output of `clean_text` is one line without double spaces and
      without whitespace at either end. */
  lemma CleanTextTidy(text: string)
    ensures Tidy(CleanText(text))
    ensures NoLineBreak(CleanText(text))
    ensures NoDoubleSpace(CleanText(text))
  {
    var pieces := SplitEach(StripEach(SplitLines(text)), Gap);
    PiecesFlat(text);
    PiecesChunks(pieces);
    JoinTidy(NonEmpty(StripEach(pieces)));
  }

  /** The pieces cut from the stripped lines are one-line and single-spaced. */
  lemma PiecesFlat(text: string)
    ensures AllFlatAndSingleSpaced(SplitEach(StripEach(SplitLines(text)), Gap))
  {
    var lines := SplitLines(text);
    SplitLinesFlat(text);
    StripEachFlat(lines);
    SplitEachFlat(StripEach(lines));
  }

  /** One-line, single-spaced pieces, stripped and filtered, are chunks. */
  lemma PiecesChunks(pieces: seq<string>)
    requires AllFlatAndSingleSpaced(pieces)
    ensures AllChunks(NonEmpty(StripEach(pieces)))
  {
    StripEachFlat(pieces);
    StripEachTrimmed(pieces);
    NonEmptyChunks(StripEach(pieces));
  }

  /** Every non-whitespace character of the input reaches the output, in
      order, and nothing else does. */
  lemma CleanTextKeepsNonSpace(text: string)
    ensures NonSpace(CleanText(text)) == NonSpace(text)
  {
    var lines := SplitLines(text);
    var pieces := SplitEach(StripEach(lines), Gap);
    var chunks := NonEmpty(StripEach(pieces));
    JoinNonSpace(chunks);
    NonEmptyConcat(StripEach(pieces));
    StripEachNonSpace(pieces);
    SplitEachNonSpace(StripEach(lines));
    StripEachNonSpace(lines);
    SplitLinesNonSpace(text);
  }

  /** The output is empty exactly when the input is empty or all whitespace. */
  lemma CleanTextEmpty(text: string)
    ensures CleanText(text) == [] <==> AllSpace(text)
  {
    var r := CleanText(text);
    CleanTextKeepsNonSpace(text);
    CleanTextTidy(text);
    NonSpaceEmpty(text);
    NonSpaceEmpty(r);
    if r != [] {
      assert !IsSpace(r[0]);
    }
  }

  /** A tidy string is left as it is. */
  lemma CleanTextFixedPoint(t: string)
    requires Tidy(t)
    ensures CleanText(t) == t
  {
    if t != [] {
      assert SplitLines(t) == [t];
      assert StripStart(t) == t;
      assert StripEnd(t) == t;
      NoDoubleSpaceNoGap(t);
      assert IndexOf(t, Gap) == |t|;
      assert Split(t, Gap) == [t];
      assert SplitEach([t], Gap) == [t] + SplitEach([], Gap);
      assert NonEmpty([t]) == [t] + NonEmpty([]);
    }
  }

  /** Cleaning twice is cleaning once. */
  lemma CleanTextIdempotent(text: string)
    ensures CleanText(CleanText(text)) == CleanText(text)
  {
    CleanTextTidy(text);
    CleanTextFixedPoint(CleanText(text));
  }
}
