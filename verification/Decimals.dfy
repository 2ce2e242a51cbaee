/** Six-digit decimal text arithmetic of the TypeScript examples, compared with exact rational
    arithmetic on every unsigned decimal text.
 */
module Decimals {
  import opened Positional
  import opened Text

  // ----- text -----

  function BeforeDot(s: string): string {
    if s == "" || s[0] == '.' then "" else [s[0]] + BeforeDot(s[1..])
  }

  function AfterDot(s: string): Option<string> {
    if s == "" then None else if s[0] == '.' then Some(s[1..]) else AfterDot(s[1..])
  }

  function Whole(value: string): string { BeforeDot(Trim(IsSpace, value)) }

  /** The second piece of splitting at dots, or the empty text. */
  function Fraction(value: string): string {
    match AfterDot(Trim(IsSpace, value))
    case None => ""
    case Some(rest) => BeforeDot(rest)
  }

  /** Digits, at most one dot, and nothing else but white space around them. */
  predicate IsUnsigned(value: string) {
    && AllOf(IsDigit, Whole(value))
    && (AfterDot(Trim(IsSpace, value)).Some? ==> AllOf(IsDigit, AfterDot(Trim(IsSpace, value)).value))
  }

  lemma {:induction false} BeforeDotOfDigits(s: string)
    requires AllOf(IsDigit, s)
    ensures BeforeDot(s) == s && AfterDot(s) == None
  {
    if s != "" {
      assert AllOf(IsDigit, s[1..]);
      BeforeDotOfDigits(s[1..]);
      assert s == [s[0]] + s[1..];
    }
  }

  lemma FractionIsDigits(value: string)
    requires IsUnsigned(value)
    ensures AllOf(IsDigit, Fraction(value))
  {
    var rest := AfterDot(Trim(IsSpace, value));
    if rest.Some? {
      BeforeDotOfDigits(rest.value);
    }
  }

  // ----- the arithmetic of the source -----

  function DecimalCents(value: string): nat
    requires IsUnsigned(value)
  {
    FractionIsDigits(value);
    var whole := Whole(value);
    Read(if whole == "" then "0" else whole, 10) * 1_000_000 + Read((Fraction(value) + "000000")[..6], 10)
  }

  predicate DecimalEquals(left: string, right: string)
    requires IsUnsigned(left) && IsUnsigned(right)
  {
    DecimalCents(left) == DecimalCents(right)
  }

  predicate DecimalLessThanOrEqual(left: string, right: string)
    requires IsUnsigned(left) && IsUnsigned(right)
  {
    DecimalCents(left) <= DecimalCents(right)
  }

  // ----- exact arithmetic -----

  /** What digits behind a dot denote. */
  function PartValue(f: string): real
    requires AllOf(IsDigit, f)
  {
    PowPositive(10, |f|);
    Read(f, 10) as real / Pow(10, |f|) as real
  }

  /** The rational number that an unsigned decimal denotes. */
  function Exact(value: string): real
    requires IsUnsigned(value)
  {
    FractionIsDigits(value);
    Read(Whole(value), 10) as real + PartValue(Fraction(value))
  }

  predicate IsZero(c: char) { c == '0' }

  /** No digit other than zero stands behind the sixth fraction digit. */
  predicate AtMostSixPlaces(value: string) {
    |Fraction(value)| <= 6 || AllOf(IsZero, Fraction(value)[6..])
  }

  predicate CutOf(g: nat, f: nat, p: nat, exact: bool) {
    && g * p <= f * 1_000_000 < (g + 1) * p
    && (g * p == f * 1_000_000 <==> exact)
  }

  lemma ShiftedRead(f: string, k: nat)
    requires AllOf(IsDigit, f)
    ensures AllOf(IsDigit, f + Repeat('0', k))
    ensures Read(f + Repeat('0', k), 10) == Read(f, 10) * Pow(10, k)
  {
    ReadZeros(k, 10);
    ReadConcat(f, Repeat('0', k), 10);
  }

  lemma PaddedRead(f: string, k: nat)
    requires AllOf(IsDigit, f) && |f| + k == 6
    ensures Read((f + "000000")[..6], 10) == Read(f, 10) * Pow(10, k)
  {
    assert (f + "000000")[..6] == f + Repeat('0', k);
    ShiftedRead(f, k);
  }

  lemma Regroup(x: nat, q: nat, p: nat)
    requires p > 0 && p * q == 1_000_000
    ensures CutOf(x * q, x, p, true)
  {
    assert x * q * p == x * (p * q);
    assert (x * q + 1) * p == x * q * p + p;
  }

  lemma PaddedFraction(f: string)
    requires AllOf(IsDigit, f) && |f| <= 6
    ensures Pow(10, |f|) > 0
    ensures CutOf(Read((f + "000000")[..6], 10), Read(f, 10), Pow(10, |f|), true)
  {
    var k := 6 - |f|;
    TenToSix();
    PowPositive(10, |f|);
    PowAdd(10, |f|, k);
    Regroup(Read(f, 10), Pow(10, k), Pow(10, |f|));
    PaddedRead(f, k);
  }

  lemma CutRead(f: string, head: string, tail: string)
    requires AllOf(IsDigit, head) && AllOf(IsDigit, tail)
    requires |head| == 6 && f == head + tail
    ensures (f + "000000")[..6] == head
    ensures AllOf(IsDigit, f)
    ensures Read(f, 10) == Read(head, 10) * Pow(10, |tail|) + Read(tail, 10)
  {
    ReadConcat(head, tail, 10);
  }

  lemma Scaled(g: nat, r: nat, q: nat)
    requires r < q
    ensures CutOf(g, g * q + r, 1_000_000 * q, r == 0)
  {
    assert g * (1_000_000 * q) == g * q * 1_000_000;
    assert (g + 1) * (1_000_000 * q) == g * q * 1_000_000 + 1_000_000 * q;
  }

  lemma {:induction false} ZeroTail(s: string)
    requires AllOf(IsDigit, s)
    ensures Read(s, 10) == 0 <==> AllOf(IsZero, s)
  {
    if s != "" {
      var front, last := s[..|s| - 1], s[|s| - 1];
      ZeroTail(front);
      assert s == front + [last];
      ReadConcat(front, [last], 10);
      ReadDigit(last, 10);
      PowOne(10);
      assert DigitOf(last) == 0 <==> IsZero(last);
      assert AllOf(IsZero, s) <==> AllOf(IsZero, front) && IsZero(last);
    }
  }

  lemma CutFraction(f: string)
    requires AllOf(IsDigit, f) && |f| > 6
    ensures Pow(10, |f|) > 0
    ensures CutOf(Read((f + "000000")[..6], 10), Read(f, 10), Pow(10, |f|), AllOf(IsZero, f[6..]))
  {
    var head, tail := f[..6], f[6..];
    TenToSix();
    PowPositive(10, |f|);
    PowAdd(10, 6, |tail|);
    ValueBound(DigitsOf(tail), 10);
    ZeroTail(tail);
    Scaled(Read(head, 10), Read(tail, 10), Pow(10, |tail|));
    CutRead(f, head, tail);
  }

  /** Six digits padded or cut from the fraction, against the fraction itself as an integer over
      10^n. The cut is exact when only zeros are cut. */
  lemma SixDigitsOfFraction(f: string)
    requires AllOf(IsDigit, f)
    ensures Pow(10, |f|) > 0
    ensures CutOf(Read((f + "000000")[..6], 10), Read(f, 10), Pow(10, |f|), |f| <= 6 || AllOf(IsZero, f[6..]))
  {
    if |f| <= 6 {
      PaddedFraction(f);
    } else {
      CutFraction(f);
    }
  }

  // ----- quotients -----

  lemma QuotientTimes(x: real, p: real)
    requires p > 0.0
    ensures x / p * p == x
  {
  }

  lemma RealProduct(a: nat, b: nat)
    ensures (a * b) as real == a as real * b as real
  {
  }

  lemma RealMulStrict(x: real, y: real, p: real)
    requires x < y && p > 0.0
    ensures x * p < y * p
  {
  }

  /** Multiplying by a positive number keeps the order. */
  lemma Order(x: real, y: real, p: real)
    requires p > 0.0
    ensures x <= y <==> x * p <= y * p
    ensures x == y <==> x * p == y * p
  {
    if x < y {
      RealMulStrict(x, y, p);
    } else if y < x {
      RealMulStrict(y, x, p);
    }
  }

  lemma TimesMillion(q: real, p: real)
    ensures q * 1_000_000.0 * p == q * p * 1_000_000.0
  {
  }

  lemma CutInReals(n: nat, g: nat, p: nat, exact: bool)
    requires p > 0 && CutOf(g, n, p, exact)
    ensures g as real <= n as real / p as real * 1_000_000.0 < g as real + 1.0
    ensures n as real / p as real * 1_000_000.0 == g as real <==> exact
  {
    var z := n as real / p as real * 1_000_000.0;
    QuotientTimes(n as real, p as real);
    TimesMillion(n as real / p as real, p as real);
    RealProduct(g, p);
    RealProduct(g + 1, p);
    Order(g as real, z, p as real);
    Order(g as real + 1.0, z, p as real);
  }

  lemma SameQuotient(x: nat, p: nat, q: nat)
    requires p > 0 && q > 0
    ensures p * q > 0
    ensures x as real / p as real == (x * q) as real / (p * q) as real
  {
    var r, d := x as real / p as real, p * q;
    assert d > 0;
    QuotientTimes(x as real, p as real);
    RealProduct(p, q);
    RealProduct(x, q);
    assert r * (p as real * q as real) == r * p as real * q as real;
    QuotientTimes((x * q) as real, d as real);
    Order(r, (x * q) as real / d as real, d as real);
  }

  lemma CentsSplit(value: string)
    requires IsUnsigned(value)
    ensures AllOf(IsDigit, Fraction(value))
    ensures DecimalCents(value)
         == Read(Whole(value), 10) * 1_000_000 + Read((Fraction(value) + "000000")[..6], 10)
  {
    FractionIsDigits(value);
    ReadDigit('0', 10);
    assert Read("", 10) == 0;
  }

  lemma ScaledSum(w: nat, q: real)
    ensures (w as real + q) * 1_000_000.0 == (w * 1_000_000) as real + q * 1_000_000.0
  {
  }

  /** The source's integer is the exact value in millionths, rounded down; it is the exact value
      precisely when no digit other than zero stands behind the sixth place. */
  lemma CentsIsFloor(value: string)
    requires IsUnsigned(value)
    ensures DecimalCents(value) == (Exact(value) * 1_000_000.0).Floor
    ensures DecimalCents(value) as real == Exact(value) * 1_000_000.0 <==> AtMostSixPlaces(value)
  {
    FractionIsDigits(value);
    var f := Fraction(value);
    var w, n, p := Read(Whole(value), 10), Read(f, 10), Pow(10, |f|);
    var g := Read((f + "000000")[..6], 10);
    CentsSplit(value);
    SixDigitsOfFraction(f);
    CutInReals(n, g, p, AtMostSixPlaces(value));
    ScaledSum(w, PartValue(f));
  }

  // ----- comparison -----

  predicate ExactlyAtMost(left: string, right: string)
    requires IsUnsigned(left) && IsUnsigned(right)
  {
    Exact(left) <= Exact(right)
  }

  /** A text within the cap is never refused, and a text that is accepted exceeds the cap by less
      than one millionth, however many digits either has. */
  lemma LessThanOrEqualBounds(left: string, right: string)
    requires IsUnsigned(left) && IsUnsigned(right)
    ensures ExactlyAtMost(left, right) ==> DecimalLessThanOrEqual(left, right)
    ensures DecimalLessThanOrEqual(left, right) ==> Exact(left) < Exact(right) + 0.000001
    ensures Exact(left) == Exact(right) ==> DecimalEquals(left, right)
    ensures DecimalEquals(left, right) ==> -0.000001 < Exact(left) - Exact(right) < 0.000001
  {
    CentsIsFloor(left);
    CentsIsFloor(right);
  }

  function Plain(w: string, f: string): string { w + "." + f }

  lemma {:induction false} SplitPlain(w: string, f: string)
    requires AllOf(IsDigit, w)
    ensures BeforeDot(Plain(w, f)) == w && AfterDot(Plain(w, f)) == Some(f)
  {
    if w == "" {
      assert ("" + "." + f)[1..] == f;
    } else {
      SplitPlain(w[1..], f);
      assert Plain(w, f)[1..] == Plain(w[1..], f);
      assert w == [w[0]] + w[1..];
    }
  }

  /** A text put together from digits, a dot and digits splits back into them. */
  lemma PlainText(w: string, f: string)
    requires AllOf(IsDigit, w) && AllOf(IsDigit, f)
    ensures Trim(IsSpace, Plain(w, f)) == Plain(w, f)
    ensures Whole(Plain(w, f)) == w && Fraction(Plain(w, f)) == f
    ensures IsUnsigned(Plain(w, f))
  {
    var t := Plain(w, f);
    assert !IsSpace(t[0]) && !IsSpace(t[|t| - 1]);
    SplitPlain(w, f);
    BeforeDotOfDigits(f);
  }

  // ----- the texts and what they denote -----

  /** Digits between white space denote the whole number. */
  lemma WholeText(x: string, w: string, y: string)
    requires AllOf(IsSpace, x) && AllOf(IsDigit, w) && AllOf(IsSpace, y)
    ensures IsUnsigned(x + w + y)
    ensures Exact(x + w + y) == Read(w, 10) as real
    ensures DecimalCents(x + w + y) == Read(w, 10) * 1_000_000
  {
    TrimExact(IsSpace, x, w, y);
    BeforeDotOfDigits(w);
    CentsSplit(x + w + y);
    ReadZeros(6, 10);
    assert ("" + "000000")[..6] == Repeat('0', 6);
    assert Read("", 10) == 0;
  }

  /** With a dot and more digits they denote the whole number and the fraction. */
  lemma DottedText(x: string, w: string, f: string, y: string)
    requires AllOf(IsSpace, x) && AllOf(IsDigit, w) && AllOf(IsDigit, f) && AllOf(IsSpace, y)
    ensures IsUnsigned(x + Plain(w, f) + y) && Pow(10, |f|) > 0
    ensures Exact(x + Plain(w, f) + y) == Read(w, 10) as real + Read(f, 10) as real / Pow(10, |f|) as real
  {
    var t := Plain(w, f);
    assert !IsSpace(t[0]) && !IsSpace(t[|t| - 1]);
    TrimExact(IsSpace, x, t, y);
    SplitPlain(w, f);
    BeforeDotOfDigits(f);
    PowPositive(10, |f|);
  }

  predicate IsWholeText(t: string, x: string, w: string, y: string) {
    AllOf(IsSpace, x) && AllOf(IsDigit, w) && AllOf(IsSpace, y) && t == x + w + y
  }

  predicate IsDottedText(t: string, x: string, w: string, f: string, y: string) {
    AllOf(IsSpace, x) && AllOf(IsDigit, w) && AllOf(IsDigit, f) && AllOf(IsSpace, y) && t == x + Plain(w, f) + y
  }

  lemma {:induction false} DotSplits(s: string)
    ensures AfterDot(s).None? ==> BeforeDot(s) == s
    ensures AfterDot(s).Some? ==> s == Plain(BeforeDot(s), AfterDot(s).value)
  {
    if s != "" && s[0] != '.' {
      DotSplits(s[1..]);
      assert s == [s[0]] + s[1..];
    } else if s != "" {
      assert s == "." + s[1..];
    }
  }

  /** The texts that are read are exactly those of the two forms. */
  lemma UnsignedForms(t: string)
    ensures IsUnsigned(t) <==>
      || (exists x, w, y :: IsWholeText(t, x, w, y))
      || (exists x, w, f, y :: IsDottedText(t, x, w, f, y))
  {
    if IsUnsigned(t) {
      var s := Trim(IsSpace, t);
      var x, y := TrimSplits(IsSpace, t);
      DotSplits(s);
      if AfterDot(s).Some? {
        assert IsDottedText(t, x, BeforeDot(s), AfterDot(s).value, y);
      } else {
        assert IsWholeText(t, x, s, y);
      }
    }
    if x, w, y :| IsWholeText(t, x, w, y) {
      WholeText(x, w, y);
    }
    if x, w, f, y :| IsDottedText(t, x, w, f, y) {
      DottedText(x, w, f, y);
    }
  }

  /** The text without its digits behind the sixth place: a cap that `left` exceeds by too little
      to be noticed. */
  lemma CutAfterSix(left: string) returns (right: string)
    requires IsUnsigned(left) && !AtMostSixPlaces(left)
    ensures IsUnsigned(right) && AtMostSixPlaces(right)
    ensures DecimalCents(right) == DecimalCents(left)
  {
    var w, f := Whole(left), Fraction(left)[..6];
    FractionIsDigits(left);
    right := Plain(w, f);
    PlainText(w, f);
    assert (f + "000000")[..6] == f;
    assert (Fraction(left) + "000000")[..6] == f;
  }

  /** The comparison with `left` agrees with exact arithmetic for every right side if and only if
      `left` has at most six places that matter; the right side may have any number. */
  lemma LessThanOrEqualIsExact(left: string)
    requires IsUnsigned(left)
    ensures AtMostSixPlaces(left) <==>
      forall right :: IsUnsigned(right) ==> (DecimalLessThanOrEqual(left, right) <==> ExactlyAtMost(left, right))
  {
    CentsIsFloor(left);
    if AtMostSixPlaces(left) {
      forall right | IsUnsigned(right)
        ensures DecimalLessThanOrEqual(left, right) <==> ExactlyAtMost(left, right)
      {
        CentsIsFloor(right);
      }
    } else {
      var right := CutAfterSix(left);
      CentsIsFloor(right);
      assert DecimalLessThanOrEqual(left, right) && !ExactlyAtMost(left, right);
    }
  }

  /** Equality with `left` agrees with exact arithmetic, for every right side with at most six places
      that matter, if and only if `left` has at most six too. */
  lemma EqualsIsExact(left: string)
    requires IsUnsigned(left)
    ensures AtMostSixPlaces(left) <==>
      forall right :: IsUnsigned(right) && AtMostSixPlaces(right) ==>
        (DecimalEquals(left, right) <==> Exact(left) == Exact(right))
  {
    CentsIsFloor(left);
    if AtMostSixPlaces(left) {
      forall right | IsUnsigned(right) && AtMostSixPlaces(right)
        ensures DecimalEquals(left, right) <==> Exact(left) == Exact(right)
      {
        CentsIsFloor(right);
      }
    } else {
      var right := CutAfterSix(left);
      CentsIsFloor(right);
      assert DecimalEquals(left, right) && Exact(left) != Exact(right);
    }
  }

  lemma TrailingZerosValue(f: string, k: nat)
    requires AllOf(IsDigit, f)
    ensures AllOf(IsDigit, f + Repeat('0', k))
    ensures PartValue(f) == PartValue(f + Repeat('0', k))
  {
    ShiftedRead(f, k);
    PowAdd(10, |f|, k);
    PowPositive(10, |f|);
    PowPositive(10, k);
    SameQuotient(Read(f, 10), Pow(10, |f|), Pow(10, k));
  }

  lemma TrailingZerosExact(w: string, f: string, k: nat)
    requires AllOf(IsDigit, w) && AllOf(IsDigit, f)
    ensures IsUnsigned(Plain(w, f)) && IsUnsigned(Plain(w, f + Repeat('0', k)))
    ensures Exact(Plain(w, f)) == Exact(Plain(w, f + Repeat('0', k)))
  {
    TrailingZerosValue(f, k);
    PlainText(w, f);
    PlainText(w, f + Repeat('0', k));
  }

  lemma SameExactSameCents(left: string, right: string)
    requires IsUnsigned(left) && IsUnsigned(right) && Exact(left) == Exact(right)
    ensures DecimalEquals(left, right)
  {
    CentsIsFloor(left);
    CentsIsFloor(right);
  }

  /** Zeros behind the fraction change neither the exact value nor the source's. */
  lemma TrailingZerosIgnored(w: string, f: string, k: nat)
    requires AllOf(IsDigit, w) && AllOf(IsDigit, f)
    ensures IsUnsigned(Plain(w, f)) && IsUnsigned(Plain(w, f + Repeat('0', k)))
    ensures Exact(Plain(w, f)) == Exact(Plain(w, f + Repeat('0', k)))
    ensures DecimalEquals(Plain(w, f), Plain(w, f + Repeat('0', k)))
  {
    TrailingZerosExact(w, f, k);
    SameExactSameCents(Plain(w, f), Plain(w, f + Repeat('0', k)));
  }

  lemma NoWholeMillionth(x: real, cents: nat)
    requires cents == (x * 1_000_000.0).Floor
    ensures cents == 0 <==> x < 0.000001
  {
  }

  lemma NoCentsExactly(amount: string)
    requires IsUnsigned(amount)
    ensures DecimalCents(amount) == 0 <==> Exact(amount) < 0.000001
  {
    CentsIsFloor(amount);
    NoWholeMillionth(Exact(amount), DecimalCents(amount));
  }

  lemma ZeroTexts()
    ensures IsUnsigned("0") && DecimalCents("0") == 0
    ensures IsUnsigned("") && DecimalCents("") == 0
  {
    assert Trim(IsSpace, "0") == "0";
    CentsSplit("0");
    CentsSplit("");
    ReadDigit('0', 10);
    ReadZeros(6, 10);
    assert ("" + "000000")[..6] == Repeat('0', 6);
  }

  /** The examples call a service free when its price text equals "0": that holds for every price
      below one millionth, the empty text included. */
  lemma FreeMeansBelowOneMillionth(amount: string)
    requires IsUnsigned(amount)
    ensures IsUnsigned("0") && IsUnsigned("")
    ensures DecimalEquals(amount, "0") <==> Exact(amount) < 0.000001
    ensures DecimalEquals("", "0")
  {
    NoCentsExactly(amount);
    ZeroTexts();
  }
}
