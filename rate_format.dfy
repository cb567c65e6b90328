/** The number side of `extract_exchange_rate` (app/main.py): `float()` of
    the captured text once its commas are removed, and the format
    `f"1 USD = IDR {rate_float:,.2f}"`.

    A parsed number is kept as an exact decimal `units / 10^scale` rather
    than a binary float, and `.2f` rounds that exact value to cents, half to
    even. */
module RateFormat {
  import opened Wrappers
  import opened PyStr
  import opened RateMatcher

  /** The number `units / 10^scale`. */
  datatype Decimal = Decimal(units: nat, scale: nat)

  function Pow10(n: nat): (p: nat)
    ensures p >= 1
  {
    if n == 0 then 1 else 10 * Pow10(n - 1)
  }

  lemma {:induction false} Pow10Add(a: nat, b: nat)
    ensures Pow10(a + b) == Pow10(a) * Pow10(b)
    decreases b
  {
    if b > 0 {
      Pow10Add(a, b - 1);
      calc {
        Pow10(a + b);
        10 * Pow10(a + b - 1);
        10 * (Pow10(a) * Pow10(b - 1));
        Pow10(a) * (10 * Pow10(b - 1));
      }
    }
  }

  predicate AllDigits(s: string) {
    forall i :: 0 <= i < |s| ==> IsDigit(s[i])
  }

  /** What is left of a capture once its commas are removed: digits and dots. */
  predicate NumberText(s: string) {
    forall i :: 0 <= i < |s| ==> IsDigit(s[i]) || s[i] == '.'
  }

  function DigitValue(c: char): (v: nat)
    ensures v < 10
  {
    if IsDigit(c) then c as int - '0' as int else 0
  }

  function DigitChar(v: nat): (c: char)
    requires v < 10
    ensures IsDigit(c) && DigitValue(c) == v
  {
    ('0' as int + v) as char
  }

  /** The number a string of decimal digits denotes (0 for none). */
  function Value(s: string): nat
    decreases |s|
  {
    if s == [] then 0 else Value(s[..|s| - 1]) * 10 + DigitValue(s[|s| - 1])
  }

  lemma {:induction false} ValueAppend(a: string, b: string)
    requires AllDigits(a) && AllDigits(b)
    ensures AllDigits(a + b)
    ensures Value(a + b) == Value(a) * Pow10(|b|) + Value(b)
    decreases |b|
  {
    if b == [] {
      assert a + b == a;
    } else {
      var b' := b[..|b| - 1];
      var d := DigitValue(b[|b| - 1]);
      assert (a + b)[..|a + b| - 1] == a + b';
      assert (a + b)[|a + b| - 1] == b[|b| - 1];
      ValueAppend(a, b');
      calc {
        Value(a + b);
        Value(a + b') * 10 + d;
        (Value(a) * Pow10(|b'|) + Value(b')) * 10 + d;
        { ShiftDigit(Value(a), Pow10(|b'|), Value(b'), d); }
        Value(a) * (10 * Pow10(|b'|)) + (Value(b') * 10 + d);
        Value(a) * Pow10(|b|) + Value(b);
      }
    }
  }

  lemma ShiftDigit(x: int, p: int, v: int, d: int)
    ensures (x * p + v) * 10 + d == x * (10 * p) + (v * 10 + d)
  {
  }

  // --------------------------------------------------------------- float()

  /** Index of the first `.` of `s`, or `|s|`. */
  function DotIndex(s: string): (k: nat)
    ensures k <= |s|
    ensures k < |s| ==> s[k] == '.'
    ensures forall i :: 0 <= i < k ==> s[i] != '.'
  {
    if s == [] || s[0] == '.' then 0 else 1 + DotIndex(s[1..])
  }

  predicate AtMostOneDot(s: string) {
    forall i, j :: 0 <= i < j < |s| && s[i] == '.' ==> s[j] != '.'
  }

  predicate HasDigit(s: string) {
    exists i :: 0 <= i < |s| && IsDigit(s[i])
  }

  /** `float(s)` for a text of digits and dots (`NumberText`), `None`
      standing for the `ValueError` it raises: the digits before the first
      dot are the whole part and those after it the fraction. Only such
      texts reach it; on any other text the result means nothing. */
  function ParseFloat(s: string): (d: Option<Decimal>)
  {
    var k := DotIndex(s);
    var whole := s[..k];
    var frac := if k < |s| then s[k + 1..] else [];
    if DotIndex(frac) < |frac| || |whole| + |frac| == 0 then None
    else Some(Decimal(Value(whole + frac), |frac|))
  }

  /** `float` accepts exactly the texts with at most one dot and at least
      one digit (so `"."`, `""` and `"1.2.3"` raise). */
  lemma ParseFloatAccepts(s: string)
    requires NumberText(s)
    ensures ParseFloat(s).Some? <==> AtMostOneDot(s) && HasDigit(s)
  {
    var k := DotIndex(s);
    var frac := if k < |s| then s[k + 1..] else [];
    if k < |s| {
      assert forall i :: 0 <= i < |frac| ==> frac[i] == s[k + 1 + i];
      var k2 := DotIndex(frac);
      if k2 < |frac| {
        assert s[k] == '.' && s[k + 1 + k2] == '.';
        assert !AtMostOneDot(s);
      } else {
        assert AtMostOneDot(s);
        if k > 0 {
          assert IsDigit(s[0]);
        } else if |frac| > 0 {
          assert IsDigit(s[k + 1]);
        } else {
          assert s == ".";
        }
      }
    } else if s != [] {
      assert IsDigit(s[0]);
    }
  }

  /** The first dot of `w.f` is the one between `w` and `f`. */
  lemma DotAfterDigits(w: string, f: string)
    requires AllDigits(w) && AllDigits(f)
    ensures NumberText(w + "." + f)
    ensures DotIndex(w + "." + f) == |w|
    ensures (w + "." + f)[..|w|] == w && (w + "." + f)[|w| + 1..] == f
  {
    var s := w + "." + f;
    assert s[|w|] == '.';
    assert forall i :: 0 <= i < |w| ==> s[i] == w[i];
    DotIndexIs(s, |w|);
    DotNumberText(w, f);
  }

  lemma DotNumberText(w: string, f: string)
    requires AllDigits(w) && AllDigits(f)
    ensures NumberText(w + "." + f)
  {
    var s := w + "." + f;
    forall i | 0 <= i < |s| ensures IsDigit(s[i]) || s[i] == '.' {
      if i < |w| {
        assert s[i] == w[i];
      } else if i > |w| {
        assert s[i] == f[i - |w| - 1];
      }
    }
  }

  /** The first dot is at `k` when `s[k]` is one and no earlier character is. */
  lemma {:induction false} DotIndexIs(s: string, k: nat)
    requires k < |s| && s[k] == '.' && forall i :: 0 <= i < k ==> s[i] != '.'
    ensures DotIndex(s) == k
    decreases k
  {
    if k > 0 {
      assert forall i :: 0 <= i < k - 1 ==> s[1..][i] == s[i + 1];
      DotIndexIs(s[1..], k - 1);
    }
  }

  lemma NoDot(f: string)
    requires AllDigits(f)
    ensures DotIndex(f) == |f|
  {
    if DotIndex(f) < |f| {
      assert IsDigit(f[DotIndex(f)]);
    }
  }

  /** `float("w.f")` reads the digits of `w` and `f` together as
      `(w * 10^|f| + f) / 10^|f|`. */
  lemma ParseFloatDigits(w: string, f: string)
    requires AllDigits(w) && AllDigits(f) && |w| + |f| > 0
    ensures NumberText(w + "." + f)
    ensures AllDigits(w + f)
    ensures ParseFloat(w + "." + f) == Some(Decimal(Value(w + f), |f|))
    ensures Value(w + f) == Value(w) * Pow10(|f|) + Value(f)
  {
    ValueAppend(w, f);
    DotAfterDigits(w, f);
    NoDot(f);
  }

  /** `float("w")` of digits only is `w`. */
  lemma ParseFloatWhole(w: string)
    requires AllDigits(w) && w != []
    ensures NumberText(w)
    ensures ParseFloat(w) == Some(Decimal(Value(w), 0))
  {
    assert w[..|w|] == w && w + [] == w;
  }

  // ------------------------------------------------------------- rounding

  /** `n / d` rounded to the nearest integer, ties to the even one. */
  function RoundHalfEven(n: nat, d: nat): nat
    requires d > 0
  {
    var q := n / d;
    var r := n % d;
    if 2 * r > d || (2 * r == d && q % 2 == 1) then q + 1 else q
  }

  /** The value in hundredths, as `.2f` rounds it. */
  function Cents(v: Decimal): nat {
    if v.scale <= 2 then v.units * Pow10(2 - v.scale) else RoundHalfEven(v.units, Pow10(v.scale - 2))
  }

  function Dist(a: int, b: int): nat {
    if a < b then b - a else a - b
  }

  lemma RoundHalfEvenNearest(n: nat, d: nat)
    requires d > 0
    ensures 2 * Dist(RoundHalfEven(n, d) * d, n) <= d
    ensures 2 * Dist(RoundHalfEven(n, d) * d, n) == d ==> RoundHalfEven(n, d) % 2 == 0
  {
    var q := n / d;
    var r := n % d;
    assert n == q * d + r;
    assert (q + 1) * d == q * d + d;
  }

  /** Cents are within half a cent of the value, exact when the value has
      at most two decimals, and an exact half goes to the even cent. */
  lemma CentsNearest(v: Decimal)
    ensures 2 * Dist(Cents(v) * Pow10(v.scale), 100 * v.units) <= Pow10(v.scale)
    ensures 2 * Dist(Cents(v) * Pow10(v.scale), 100 * v.units) == Pow10(v.scale) ==> Cents(v) % 2 == 0
    ensures v.scale <= 2 ==> Cents(v) * Pow10(v.scale) == 100 * v.units
  {
    if v.scale <= 2 {
      CentsExact(v);
    } else {
      CentsRounded(v);
    }
  }

  lemma CentsExact(v: Decimal)
    requires v.scale <= 2
    ensures Cents(v) * Pow10(v.scale) == 100 * v.units
  {
    var c := Cents(v);
    Pow10Add(2 - v.scale, v.scale);
    assert Pow10(2) == 100;
    calc {
      c * Pow10(v.scale);
      v.units * Pow10(2 - v.scale) * Pow10(v.scale);
      v.units * (Pow10(2 - v.scale) * Pow10(v.scale));
    }
  }

  lemma CentsRounded(v: Decimal)
    requires v.scale > 2
    ensures 2 * Dist(Cents(v) * Pow10(v.scale), 100 * v.units) <= Pow10(v.scale)
    ensures 2 * Dist(Cents(v) * Pow10(v.scale), 100 * v.units) == Pow10(v.scale) ==> Cents(v) % 2 == 0
  {
    var d := Pow10(v.scale - 2);
    var c := RoundHalfEven(v.units, d);
    assert Cents(v) == c;
    Pow10Add(v.scale - 2, 2);
    assert Pow10(2) == 100;
    RoundHalfEvenNearest(v.units, d);
    ScaledDist(c, v.units, d, Pow10(v.scale));
  }

  /** Scaling both sides by 100 scales their distance by 100. */
  lemma ScaledDist(c: nat, u: nat, d: nat, p: nat)
    requires p == d * 100
    ensures 2 * Dist(c * p, 100 * u) <= p <==> 2 * Dist(c * d, u) <= d
    ensures 2 * Dist(c * p, 100 * u) == p <==> 2 * Dist(c * d, u) == d
  {
    assert c * p == 100 * (c * d);
    DistScale(c * d, u, 100);
  }

  lemma DistScale(a: int, b: int, k: nat)
    ensures Dist(k * a, k * b) == k * Dist(a, b)
  {
    if a < b {
      assert k * b - k * a == k * (b - a);
    } else {
      assert k * a - k * b == k * (a - b);
    }
  }

  // ------------------------------------------------------------ `:,.2f`

  /** `str(n)`: decimal digits without leading zeros. */
  function Digits(n: nat): (s: string)
    ensures s != [] && AllDigits(s) && Value(s) == n
    ensures n > 0 ==> s[0] != '0'
    decreases n
  {
    if n < 10 then [DigitChar(n)]
    else
      var h := Digits(n / 10);
      var d := DigitChar(n % 10);
      var s := h + [d];
      assert s[..|s| - 1] == h && s[|s| - 1] == d && s[0] == h[0];
      assert Value(s) == Value(h) * 10 + DigitValue(d);
      s
  }

  /** A number below `10^k` has at most `k` digits (and always at least one). */
  lemma {:induction false} DigitsLength(n: nat, k: nat)
    requires k >= 1 && n < Pow10(k)
    ensures |Digits(n)| <= k
    decreases n
  {
    assert Pow10(0) == 1 && Pow10(1) == 10;
    if n >= 10 {
      assert k >= 2;
      assert Pow10(k) == 10 * Pow10(k - 1);
      DigitsLength(n / 10, k - 1);
    }
  }

  /** Three digits with leading zeros. */
  function Pad3(n: nat): (s: string)
    requires n < 1000
    ensures |s| == 3 && AllDigits(s) && Value(s) == n
  {
    var a, b, c := DigitChar(n / 100), DigitChar(n / 10 % 10), DigitChar(n % 10);
    var s := [a, b, c];
    assert s[..2] == [a, b] && [a, b][..1] == [a] && [a][..0] == [];
    assert Value([a]) == n / 100;
    assert Value([a, b]) == n / 100 * 10 + n / 10 % 10;
    assert Value(s) == (n / 100 * 10 + n / 10 % 10) * 10 + n % 10;
    ThreeDigits(n);
    s
  }

  lemma ThreeDigits(n: nat)
    requires n < 1000
    ensures (n / 100 * 10 + n / 10 % 10) * 10 + n % 10 == n
  {
    LastTwoDigits(n);
    assert n == 100 * (n / 100) + n % 100;
  }

  /** The whole part with `,` between groups of three digits. */
  function Grouped(n: nat): (s: string)
    ensures s != [] && s[0] != ','
    decreases n
  {
    if n < 1000 then Digits(n) else Grouped(n / 1000) + "," + Pad3(n % 1000)
  }

  /** `format(c / 100, ",.2f")` for `c` hundredths. */
  function Amount(c: nat): string {
    Grouped(c / 100) + "." + Cents2(c)
  }

  const RatePrefix := "1 USD = IDR "

  /** `f"1 USD = IDR {rate_float:,.2f}"` */
  function FormatRate(v: Decimal): string {
    RatePrefix + Amount(Cents(v))
  }

  // ------------------------------------------------------- the round trip

  lemma {:induction false} RemoveAppend(a: string, b: string, c: char)
    ensures Remove(a + b, c) == Remove(a, c) + Remove(b, c)
    decreases |a|
  {
    if a != [] {
      assert (a + b)[0] == a[0] && (a + b)[1..] == a[1..] + b;
      RemoveAppend(a[1..], b, c);
    } else {
      assert a + b == b;
    }
  }

  /** Removing the one occurrence of `c` between `a` and `b`. */
  lemma RemoveBetween(a: string, c: char, b: string)
    requires c !in a && c !in b
    ensures Remove(a + [c] + b, c) == a + b
  {
    RemoveThree(a, c, b);
    RemoveNone(a, c);
    RemoveNone(b, c);
    assert Remove([c], c) == [];
    assert a + [] == a;
  }

  lemma RemoveThree(a: string, c: char, b: string)
    ensures Remove(a + [c] + b, c) == Remove(a, c) + Remove([c], c) + Remove(b, c)
  {
    RemoveAppend(a + [c], b, c);
    RemoveAppend(a, [c], c);
  }

  lemma RemoveNone(a: string, c: char)
    requires c !in a
    ensures Remove(a, c) == a
  {
    RemoveAbsent(a, c);
  }

  lemma {:induction false} RemoveAbsent(s: string, c: char)
    requires forall i :: 0 <= i < |s| ==> s[i] != c
    ensures Remove(s, c) == s
    decreases |s|
  {
    if s != [] {
      RemoveAbsent(s[1..], c);
    }
  }

  /** Every fourth character from the right is a comma, and every other
      one a digit. */
  predicate CommaShape(s: string) {
    forall i :: 0 <= i < |s| ==> (s[i] == ',' <==> (|s| - i) % 4 == 0) && (s[i] == ',' || IsDigit(s[i]))
  }

  lemma CommaShapeGlue(g: string, p: string)
    requires CommaShape(g) && |p| == 3 && AllDigits(p)
    ensures CommaShape(g + "," + p)
  {
    var s := g + "," + p;
    forall i | 0 <= i < |s| ensures (s[i] == ',' <==> (|s| - i) % 4 == 0) && (s[i] == ',' || IsDigit(s[i])) {
      if i < |g| {
        assert s[i] == g[i];
        assert |s| - i == (|g| - i) + 4;
      } else if i > |g| {
        assert s[i] == p[i - |g| - 1];
      }
    }
  }

  /** A grouped number has a comma exactly at every fourth place from the
      right, and digits everywhere else. */
  lemma {:induction false} GroupedCommas(n: nat)
    ensures CommaShape(Grouped(n))
    decreases n
  {
    if n >= 1000 {
      GroupedCommas(n / 1000);
      CommaShapeGlue(Grouped(n / 1000), Pad3(n % 1000));
    } else {
      assert Pow10(3) == 1000;
      DigitsLength(n, 3);
    }
  }

  /** Removing the commas of a grouped number leaves the digits of the number. */
  lemma {:induction false} GroupedValue(n: nat)
    ensures AllDigits(Remove(Grouped(n), ','))
    ensures Value(Remove(Grouped(n), ',')) == n
    decreases n
  {
    if n < 1000 {
      RemoveAbsent(Digits(n), ',');
    } else {
      var g := Grouped(n / 1000);
      var p := Pad3(n % 1000);
      GroupedValue(n / 1000);
      RemoveAppend(g + ",", p, ',');
      RemoveAppend(g, ",", ',');
      RemoveAbsent(p, ',');
      assert Remove(",", ',') == [];
      assert Remove(Grouped(n), ',') == Remove(g, ',') + p;
      ValueAppend(Remove(g, ','), p);
      assert Pow10(3) == 1000;
    }
  }

  /** Reading the formatted amount back the way `extract_exchange_rate`
      reads a capture (drop the commas, then `float`) gives exactly the
      hundredths it was formatted from. */
  lemma AmountRoundTrip(c: nat)
    ensures NumberText(Remove(Amount(c), ','))
    ensures ParseFloat(Remove(Amount(c), ',')) == Some(Decimal(c, 2))
  {
    var w := Remove(Grouped(c / 100), ',');
    var f := Cents2(c);
    AmountWithoutCommas(c);
    GroupedValue(c / 100);
    Cents2Value(c);
    assert |f| == 2 && AllDigits(w) && AllDigits(f);
    ParseFloatDigits(w, f);
    assert Pow10(2) == 100;
    assert Value(w + f) == (c / 100) * 100 + c % 100 == c;
  }

  /** The two digits after the point. */
  function Cents2(c: nat): (f: string)
    ensures |f| == 2 && AllDigits(f)
  {
    [DigitChar(c / 10 % 10), DigitChar(c % 10)]
  }

  lemma Cents2Value(c: nat)
    ensures Value(Cents2(c)) == c % 100
  {
    var f := Cents2(c);
    assert f[..1] == [f[0]] && [f[0]][..0] == [];
    assert Value([f[0]]) == c / 10 % 10;
    assert Value(f) == c / 10 % 10 * 10 + c % 10;
    LastTwoDigits(c);
  }

  lemma LastTwoDigits(c: nat)
    ensures c / 10 % 10 * 10 + c % 10 == c % 100
  {
    var t := c % 100;
    assert c == 100 * (c / 100) + t;
    assert c / 10 == 10 * (c / 100) + t / 10;
    assert c / 10 % 10 == t / 10 && c % 10 == t % 10;
  }

  lemma AmountWithoutCommas(c: nat)
    ensures Remove(Amount(c), ',') == Remove(Grouped(c / 100), ',') + "." + Cents2(c)
  {
    var g := Grouped(c / 100);
    var f := Cents2(c);
    assert Amount(c) == (g + ".") + f;
    RemoveAppend(g + ".", f, ',');
    RemoveAppend(g, ".", ',');
    RemoveAbsent(f, ',');
    RemoveAbsent(".", ',');
  }

  // ------------------------------------------------------------ an example

  lemma ValueExample()
    ensures Value("15750") == 15750 && Value("25") == 25
  {
    assert "15750"[..4] == "1575";
    assert "1575"[..3] == "157";
    assert "157"[..2] == "15";
    assert "15"[..1] == "1";
    assert "1"[..0] == [];
    assert "25"[..1] == "2";
    assert "2"[..0] == [];
  }

  /** `float("w.f")` in terms of the values of `w` and `f`. */
  lemma ParseDecimal(w: string, f: string, a: nat, b: nat)
    requires AllDigits(w) && AllDigits(f) && |w| + |f| > 0 && Value(w) == a && Value(f) == b
    ensures ParseFloat(w + "." + f) == Some(Decimal(a * Pow10(|f|) + b, |f|))
  {
    ParseFloatDigits(w, f);
    assert Value(w + f) == a * Pow10(|f|) + b;
  }

  /** `float("15750.25")` is exactly 15750.25. */
  lemma ParseExample()
    ensures ParseFloat("15750.25") == Some(Decimal(1575025, 2))
  {
    ValueExample();
    ParseDecimal("15750", "25", 15750, 25);
    assert "15750" + "." + "25" == "15750.25";
    assert Pow10(2) == 100;
  }

  lemma GroupedExample()
    ensures Grouped(15750) == "15,750"
  {
    assert Digits(15) == "15";
    assert Pad3(750) == "750";
  }

  /** 15750.25 is written "15,750.25". */
  lemma FormatExample()
    ensures FormatRate(Decimal(1575025, 2)) == "1 USD = IDR 15,750.25"
  {
    assert Cents(Decimal(1575025, 2)) == 1575025;
    GroupedExample();
    assert Cents2(1575025) == "25";
  }
}
