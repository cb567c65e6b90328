/** The Python `str` operations the core relies on, with Python's semantics
    written out: `isspace`, `splitlines`, `strip`, `split(sep)`, `split()`,
    `lower`, `in`, `startswith`, `replace` and slicing. */
module PyStr {

  /** `c.isspace()`: the characters Python classes as whitespace
      (bidirectional class WS, B or S, or general category Zs). */
  predicate IsSpace(c: char) {
    var n := c as int;
    (9 <= n <= 13) || (0x1C <= n <= 0x20) || n == 0x85 || n == 0xA0 || n == 0x1680
    || (0x2000 <= n <= 0x200A) || n == 0x2028 || n == 0x2029 || n == 0x202F
    || n == 0x205F || n == 0x3000
  }

  /** The line boundaries of `str.splitlines`: \n, \r, \v, \f, \x1c, \x1d,
      \x1e, \x85, U+2028 and U+2029 (\r\n counts as one boundary). */
  predicate IsLineBreak(c: char) {
    var n := c as int;
    (10 <= n <= 13) || (0x1C <= n <= 0x1E) || n == 0x85 || n == 0x2028 || n == 0x2029
  }

  predicate NoLineBreak(s: string) {
    forall i :: 0 <= i < |s| ==> !IsLineBreak(s[i])
  }

  predicate AllSpace(s: string) {
    forall i :: 0 <= i < |s| ==> IsSpace(s[i])
  }

  // ---------------------------------------------------------------- strip

  /** `s.lstrip()` */
  function StripStart(s: string): (r: string)
    ensures |r| <= |s| && r == s[|s| - |r|..]
    ensures r != [] ==> !IsSpace(r[0])
    ensures AllSpace(s[..|s| - |r|])
  {
    if s != [] && IsSpace(s[0]) then
      var r := StripStart(s[1..]);
      assert s[..|s| - |r|] == [s[0]] + s[1..][..|s| - 1 - |r|];
      r
    else s
  }

  /** `s.rstrip()` */
  function StripEnd(s: string): (r: string)
    ensures |r| <= |s| && r == s[..|r|]
    ensures r != [] ==> !IsSpace(r[|r| - 1])
    ensures AllSpace(s[|r|..])
  {
    if s != [] && IsSpace(s[|s| - 1]) then
      var t := s[..|s| - 1];
      var r := StripEnd(t);
      assert s[|r|..] == t[|r|..] + [s[|s| - 1]];
      r
    else s
  }

  /** No whitespace at either end. */
  predicate Trimmed(s: string) {
    s != [] ==> !IsSpace(s[0]) && !IsSpace(s[|s| - 1])
  }

  /** `s.strip()`: a slice of `s` whose two ends are not whitespace. */
  function Strip(s: string): (r: string)
    ensures |r| <= |s|
    ensures Trimmed(r)
  {
    StripEnd(StripStart(s))
  }

  /** Where the slice `Strip(s)` begins in `s`. */
  function StripOffset(s: string): (k: nat)
    ensures k + |Strip(s)| <= |s|
    ensures Strip(s) == s[k..k + |Strip(s)|]
    ensures AllSpace(s[..k]) && AllSpace(s[k + |Strip(s)|..])
  {
    var t := StripStart(s);
    var r := StripEnd(t);
    assert r == Strip(s);
    InnerSlice(s, t, r);
    |s| - |t|
  }

  // ----------------------------------------------------------- splitlines

  /** Index of the first line boundary of `s`, or `|s|`. */
  function LineEnd(s: string): (k: nat)
    ensures k <= |s|
    ensures k < |s| ==> IsLineBreak(s[k])
    ensures NoLineBreak(s[..k])
  {
    if s == [] || IsLineBreak(s[0]) then 0 else 1 + LineEnd(s[1..])
  }

  /** Where the text after the line boundary at `k` starts ("\r\n" is one boundary). */
  function NextLine(s: string, k: nat): (j: nat)
    requires k < |s| && IsLineBreak(s[k])
    ensures k < j <= |s| && AllSpace(s[k..j])
  {
    if s[k] == '\r' && k + 1 < |s| && s[k + 1] == '\n' then k + 2 else k + 1
  }

  /** `s.splitlines()` */
  function SplitLines(s: string): (lines: seq<string>)
    decreases |s|
  {
    if s == [] then []
    else
      var k := LineEnd(s);
      if k == |s| then [s]
      else [s[..k]] + SplitLines(s[NextLine(s, k)..])
  }

  /** A line ends at a boundary with none before it. */
  lemma {:induction false} LineEndIs(s: string, k: nat)
    requires k < |s| && IsLineBreak(s[k]) && NoLineBreak(s[..k])
    ensures LineEnd(s) == k
    decreases k
  {
    if k > 0 {
      assert s[..k][0] == s[0];
      assert s[1..][..k - 1] == s[..k][1..];
      LineEndIs(s[1..], k - 1);
    }
  }

  /** A line without a boundary, then a boundary: the line ends at the boundary. */
  lemma LineEndAt(a: string, rest: string)
    requires NoLineBreak(a) && rest != [] && IsLineBreak(rest[0])
    ensures LineEnd(a + rest) == |a|
  {
    var s := a + rest;
    assert s[|a|] == rest[0] && s[..|a|] == a;
    LineEndIs(s, |a|);
  }

  /** A single-character boundary other than the `\r` of `\r\n` ends one line. */
  lemma SplitLinesBreak(a: string, c: char, b: string)
    requires NoLineBreak(a) && IsLineBreak(c)
    requires c == '\r' ==> b == [] || b[0] != '\n'
    ensures SplitLines(a + [c] + b) == [a] + SplitLines(b)
  {
    var s := a + [c] + b;
    assert s == a + ([c] + b);
    LineEndAt(a, [c] + b);
    assert s[|a|] == c;
    assert |a| + 1 < |s| ==> s[|a| + 1] == b[0];
    assert NextLine(s, |a|) == |a| + 1;
    assert s[..|a|] == a && s[|a| + 1..] == b;
  }

  /** `\r\n` is one boundary: it ends one line, with no empty line between. */
  lemma SplitLinesCrLf(a: string, b: string)
    requires NoLineBreak(a)
    ensures SplitLines(a + "\r\n" + b) == [a] + SplitLines(b)
  {
    var s := a + "\r\n" + b;
    assert s == a + ("\r\n" + b);
    LineEndAt(a, "\r\n" + b);
    assert s[|a|] == '\r' && s[|a| + 1] == '\n';
    assert s[..|a|] == a && s[|a| + 2..] == b;
  }

  /** A non-empty text without a boundary is a single line. */
  lemma SplitLinesSingle(a: string)
    requires a != [] && NoLineBreak(a)
    ensures SplitLines(a) == [a]
  {
  }

  // ------------------------------------------------------------ split(sep)

  predicate OccursAt(s: string, sep: string, i: nat) {
    i + |sep| <= |s| && s[i..i + |sep|] == sep
  }

  /** `s.find(sep)`, with `|s|` standing for -1. */
  function IndexOf(s: string, sep: string): (k: nat)
    requires |sep| > 0
    ensures k <= |s|
    ensures k < |s| ==> OccursAt(s, sep, k)
    ensures forall i :: 0 <= i < k ==> !OccursAt(s, sep, i)
  {
    if |s| < |sep| then |s|
    else if s[..|sep|] == sep then 0
    else
      var k := 1 + IndexOf(s[1..], sep);
      forall i: nat | 1 <= i < k ensures !OccursAt(s, sep, i) {
        OccursShift(s, sep, i);
      }
      OccursShift(s, sep, k);
      k
  }

  /** An occurrence at `i >= 1` in `s` is one at `i - 1` in `s[1..]`. */
  lemma OccursShift(s: string, sep: string, i: nat)
    requires s != [] && 1 <= i
    ensures OccursAt(s, sep, i) <==> OccursAt(s[1..], sep, i - 1)
  {
    if i + |sep| <= |s| {
      var x, y := s[1..][i - 1..i - 1 + |sep|], s[i..i + |sep|];
      forall t | 0 <= t < |sep| ensures x[t] == y[t] {
        assert s[1..][i - 1 + t] == s[i + t];
      }
      assert x == y;
    }
  }

  /** `s.split(sep)`: the pieces between non-overlapping occurrences of `sep`,
      found left to right. */
  function Split(s: string, sep: string): (parts: seq<string>)
    requires |sep| > 0
    ensures |parts| >= 1
    decreases |s|
  {
    var k := IndexOf(s, sep);
    if k == |s| then [s] else [s[..k]] + Split(s[k + |sep|..], sep)
  }

  // ---------------------------------------------------------------- split()

  /** Index of the first whitespace character of `s`, or `|s|`. */
  function WordEnd(s: string): (k: nat)
    ensures k <= |s|
    ensures k < |s| ==> IsSpace(s[k])
    ensures forall i :: 0 <= i < k ==> !IsSpace(s[i])
  {
    if s == [] || IsSpace(s[0]) then 0 else 1 + WordEnd(s[1..])
  }

  /** A word of `split()`: non-empty, without whitespace. */
  predicate IsWord(w: string) {
    w != [] && forall j :: 0 <= j < |w| ==> !IsSpace(w[j])
  }

  /** `s.split()`: maximal runs of non-whitespace characters, in order. */
  function Words(s: string): seq<string>
    decreases |s|
  {
    var t := StripStart(s);
    if t == [] then []
    else
      var k := WordEnd(t);
      [t[..k]] + Words(t[k..])
  }

  /** Every piece of `split()` is a word. */
  lemma {:induction false} WordsAreWords(s: string)
    ensures forall w :: w in Words(s) ==> IsWord(w)
    decreases |s|
  {
    var t := StripStart(s);
    if t != [] {
      var k := WordEnd(t);
      FirstWord(t);
      WordsAreWords(t[k..]);
      assert Words(s) == [t[..k]] + Words(t[k..]);
    }
  }

  lemma FirstWord(t: string)
    requires t != [] && !IsSpace(t[0])
    ensures IsWord(t[..WordEnd(t)])
  {
  }

  /** A word ends at the first whitespace character, or at the end. */
  lemma {:induction false} WordEndIs(s: string, k: nat)
    requires k <= |s| && (k == |s| || IsSpace(s[k]))
    requires forall i :: 0 <= i < k ==> !IsSpace(s[i])
    ensures WordEnd(s) == k
    decreases k
  {
    if k > 0 {
      WordEndIs(s[1..], k - 1);
    }
  }

  /** A single word splits into itself. */
  lemma WordsOfWord(w: string)
    requires IsWord(w)
    ensures Words(w) == [w]
  {
    assert StripStart(w) == w;
    WordEndIs(w, |w|);
    assert w[..|w|] == w && w[|w|..] == [];
    assert Words(w) == [w[..|w|]] + Words(w[|w|..]);
  }

  /** Leading whitespace produces no word. */
  lemma WordsSkipSpace(c: char, b: string)
    requires IsSpace(c)
    ensures Words([c] + b) == Words(b)
  {
    assert ([c] + b)[1..] == b;
  }

  /** A word followed by whitespace is the first piece of `split()`, and
      the rest splits on its own. */
  lemma WordsCons(a: string, c: char, b: string)
    requires IsWord(a) && IsSpace(c)
    ensures Words(a + [c] + b) == [a] + Words([c] + b)
  {
    var s := a + [c] + b;
    assert s[|a|] == c;
    WordEndIs(s, |a|);
    assert s[..|a|] == a && s[|a|..] == [c] + b;
  }

  // ---------------------------------------------------------- join, concat

  /** `sep.join(parts)` */
  function Join(sep: string, parts: seq<string>): string {
    if parts == [] then []
    else if |parts| == 1 then parts[0]
    else parts[0] + sep + Join(sep, parts[1..])
  }

  /** `''.join(parts)` */
  function Concat(parts: seq<string>): string {
    if parts == [] then [] else parts[0] + Concat(parts[1..])
  }

  // ------------------------------------------------------- lower, in, etc.

  /** Lower-casing of one character; only A-Z are mapped. */
  function LowerChar(c: char): (d: char)
    ensures !('A' <= d <= 'Z')
  {
    if 'A' <= c <= 'Z' then (c as int + 32) as char else c
  }

  /** `s.lower()`, restricted to ASCII letters. */
  function Lower(s: string): (r: string)
    ensures |r| == |s|
    ensures forall i :: 0 <= i < |s| ==> r[i] == LowerChar(s[i])
  {
    if s == [] then [] else [LowerChar(s[0])] + Lower(s[1..])
  }

  /** `s.startswith(prefix)` */
  predicate StartsWith(s: string, prefix: string) {
    |prefix| <= |s| && s[..|prefix|] == prefix
  }

  /** `sub in s` */
  predicate Contains(s: string, sub: string)
    decreases |s|
  {
    StartsWith(s, sub) || (s != [] && Contains(s[1..], sub))
  }

  /** `s[:n]` for `n >= 0` */
  function Take(s: string, n: nat): (r: string)
    ensures |r| == if |s| <= n then |s| else n
    ensures r == s[..|r|]
  {
    if |s| <= n then s else s[..n]
  }

  /** `s.replace(c, '')` for one character `c`. */
  function Remove(s: string, c: char): string {
    if s == [] then []
    else (if s[0] == c then [] else [s[0]]) + Remove(s[1..], c)
  }

  /** `s.replace(c, '')` keeps only characters of `s`, and none is `c`. */
  lemma {:induction false} RemoveKeeps(s: string, c: char)
    ensures forall x :: x in Remove(s, c) ==> x != c && x in s
    decreases |s|
  {
    if s != [] {
      RemoveKeeps(s[1..], c);
      assert Remove(s, c) == (if s[0] == c then [] else [s[0]]) + Remove(s[1..], c);
    }
  }

  // ----------------------------------------------------------------- lemmas

  /** A prefix `r` of a suffix `t` of `s`, followed in `t` by whitespace
      only, is a slice of `s` followed in `s` by whitespace only. */
  lemma InnerSlice(s: string, t: string, r: string)
    requires |t| <= |s| && t == s[|s| - |t|..]
    requires |r| <= |t| && r == t[..|r|] && AllSpace(t[|r|..])
    ensures r == s[|s| - |t|..|s| - |t| + |r|] && AllSpace(s[|s| - |t| + |r|..])
  {
    var k := |s| - |t|;
    assert t[|r|..] == s[k + |r|..];
  }

  /** A text is the concatenation of its slices before `k`, between `k`
      and `j`, and from `j` on. */
  lemma Slices3(s: string, k: nat, j: nat)
    requires k <= j <= |s|
    ensures s == s[..k] + s[k..j] + s[j..]
  {
    assert s[..j] == s[..k] + s[k..j];
    assert s == s[..j] + s[j..];
  }

  /** An occurrence anywhere makes `sub in s` true. */
  lemma {:induction false} ContainsAt(s: string, sub: string, i: nat)
    requires OccursAt(s, sub, i)
    ensures Contains(s, sub)
    decreases i
  {
    if i > 0 {
      assert s[1..][i - 1..i - 1 + |sub|] == s[i..i + |sub|];
      ContainsAt(s[1..], sub, i - 1);
    }
  }

  /** `sub in s` holds only when `sub` occurs at some index. */
  lemma {:induction false} ContainsOccurs(s: string, sub: string)
    requires Contains(s, sub)
    ensures exists i: nat :: OccursAt(s, sub, i)
    decreases |s|
  {
    if StartsWith(s, sub) {
      assert OccursAt(s, sub, 0);
    } else {
      ContainsOccurs(s[1..], sub);
      var i: nat :| OccursAt(s[1..], sub, i);
      OccursShift(s, sub, i + 1);
    }
  }

  /** `sub in s` needs the first character of `sub` in `s`. */
  lemma {:induction false} ContainsHead(s: string, sub: string)
    requires sub != [] && Contains(s, sub)
    ensures sub[0] in s
    decreases |s|
  {
    if !StartsWith(s, sub) {
      ContainsHead(s[1..], sub);
      assert s == [s[0]] + s[1..];
    }
  }

  /** Lower-casing is idempotent. */
  lemma LowerIdempotent(s: string)
    ensures Lower(Lower(s)) == Lower(s)
  {
    assert forall i :: 0 <= i < |s| ==> LowerChar(LowerChar(s[i])) == LowerChar(s[i]);
  }

  /** A text without upper-case letters is its own lower-case form. */
  lemma LowerFixed(s: string)
    requires forall i :: 0 <= i < |s| ==> !('A' <= s[i] <= 'Z')
    ensures Lower(s) == s
  {
  }

  /** Every piece of `s.split(sep)` is made of characters of `s`. */
  lemma {:induction false} SplitKeepsChars(s: string, sep: string)
    requires |sep| > 0
    ensures forall l, x :: l in Split(s, sep) && x in l ==> x in s
    decreases |s|
  {
    var k := IndexOf(s, sep);
    if k < |s| {
      var rest := s[k + |sep|..];
      SplitKeepsChars(rest, sep);
      assert Split(s, sep) == [s[..k]] + Split(rest, sep);
      forall l, x | l in Split(s, sep) && x in l ensures x in s {
        if l == s[..k] {
          var i :| 0 <= i < k && s[..k][i] == x;
          assert s[i] == x;
        } else {
          assert l in Split(rest, sep);
          var i :| 0 <= i < |rest| && rest[i] == x;
          assert s[k + |sep| + i] == x;
        }
      }
    }
  }

  /** Every line of `text.split('\n')` on lower-cased text is already
      lower-case itself. */
  lemma LowerLines(t: string)
    ensures forall l :: l in Split(Lower(t), "\n") ==> Lower(l) == l
  {
    var s := Lower(t);
    SplitKeepsChars(s, "\n");
    forall l | l in Split(s, "\n") ensures Lower(l) == l {
      forall i | 0 <= i < |l| ensures !('A' <= l[i] <= 'Z') {
        assert l[i] in l;
      }
      LowerFixed(l);
    }
  }

  /** A one-character separator first occurs where the character first does. */
  lemma IndexOfChar(a: string, c: char, b: string)
    requires c !in a
    ensures IndexOf(a + [c] + b, [c]) == |a|
  {
    var s := a + [c] + b;
    assert s[|a|..|a| + 1] == [c];
    assert OccursAt(s, [c], |a|);
    forall i | 0 <= i < |a| ensures !OccursAt(s, [c], i) {
      assert s[i..i + 1] == [a[i]];
    }
  }

  /** Splitting at the first one-character separator. */
  lemma SplitAtChar(a: string, c: char, b: string)
    requires c !in a
    ensures Split(a + [c] + b, [c]) == [a] + Split(b, [c])
  {
    var s := a + [c] + b;
    IndexOfChar(a, c, b);
    assert s[..|a|] == a;
    assert s[|a| + 1..] == b;
  }

  /** A text without the separator character splits into itself. */
  lemma SplitNoChar(s: string, c: char)
    requires c !in s
    ensures Split(s, [c]) == [s]
  {
    forall i | 0 <= i < |s| ensures !OccursAt(s, [c], i) {
      assert s[i..i + 1] == [s[i]];
    }
  }
}
