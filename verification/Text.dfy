/** ASCII text: the string operations of the JavaScript, Python, Java and Go standard libraries
    that the modelled code calls, and printing and reading of numerals.
 */
module Text {
  import opened Positional

  datatype Option<+T> = None | Some(value: T)
  datatype Result<+T, +E> = Ok(value: T) | Err(error: E)

  function GetOr<T>(o: Option<T>, default: T): T {
    match o case Some(v) => v case None => default
  }

  predicate IsAscii(s: string) {
    forall i :: 0 <= i < |s| ==> s[i] < 128 as char
  }

  /** The ASCII members of the white space that JavaScript and Go trim. */
  predicate IsSpace(c: char) {
    c == ' ' || '\t' <= c <= '\r'
  }

  /** The ASCII members of the white space that Python's `str.strip` removes; it also counts the
      four separator controls. */
  predicate IsPythonSpace(c: char) {
    IsSpace(c) || 28 as char <= c <= 31 as char
  }

  predicate IsUpper(c: char) { 'A' <= c <= 'Z' }
  predicate IsLower(c: char) { 'a' <= c <= 'z' }
  predicate IsDigit(c: char) { '0' <= c <= '9' }

  function Upper(c: char): char {
    if IsLower(c) then (c as int - 32) as char else c
  }

  function Lower(c: char): char {
    if IsUpper(c) then (c as int + 32) as char else c
  }

  function Map(f: char -> char, s: string): (r: string)
    ensures |r| == |s|
    ensures forall i :: 0 <= i < |s| ==> r[i] == f(s[i])
  {
    if s == "" then "" else [f(s[0])] + Map(f, s[1..])
  }

  function Filter(p: char -> bool, s: string): string {
    if s == "" then "" else (if p(s[0]) then [s[0]] else "") + Filter(p, s[1..])
  }

  function TrimStart(p: char -> bool, s: string): string {
    if s != "" && p(s[0]) then TrimStart(p, s[1..]) else s
  }

  function TrimEnd(p: char -> bool, s: string): string {
    if s != "" && p(s[|s| - 1]) then TrimEnd(p, s[..|s| - 1]) else s
  }

  function Trim(p: char -> bool, s: string): string {
    TrimEnd(p, TrimStart(p, s))
  }

  /** Python's `str.strip`. */
  function Strip(s: string): string { Trim(IsPythonSpace, s) }

  function Repeat(c: char, n: nat): (s: string)
    ensures |s| == n
    ensures forall i :: 0 <= i < n ==> s[i] == c
  {
    if n == 0 then "" else [c] + Repeat(c, n - 1)
  }

  function PadStart(s: string, w: nat, c: char): string {
    if |s| >= w then s else Repeat(c, w - |s|) + s
  }

  predicate AllOf(p: char -> bool, s: string) {
    forall i :: 0 <= i < |s| ==> p(s[i])
  }

  lemma {:induction false} TrimStartSplits(p: char -> bool, s: string)
    ensures var n := |s| - |TrimStart(p, s)|;
      n >= 0 && TrimStart(p, s) == s[n..] && AllOf(p, s[..n])
    ensures TrimStart(p, s) != "" ==> !p(TrimStart(p, s)[0])
  {
    if s != "" && p(s[0]) {
      TrimStartSplits(p, s[1..]);
      var n := |s| - |TrimStart(p, s)|;
      assert s[1..][n - 1..] == s[n..];
      assert s[1..][..n - 1] == s[1..n];
      assert forall i :: 1 <= i < n ==> s[i] == s[1..n][i - 1];
    }
  }

  lemma {:induction false} TrimEndSplits(p: char -> bool, s: string)
    ensures TrimEnd(p, s) <= s && AllOf(p, s[|TrimEnd(p, s)|..])
    ensures TrimEnd(p, s) != "" ==> !p(TrimEnd(p, s)[|TrimEnd(p, s)| - 1])
  {
    if s != "" && p(s[|s| - 1]) {
      var t := s[..|s| - 1];
      TrimEndSplits(p, t);
      var n := |TrimEnd(p, t)|;
      assert forall i :: n <= i < |t| ==> s[i] == t[n..][i - n];
    }
  }

  lemma Cut(s: string, n: nat)
    requires n <= |s|
    ensures s == s[..n] + s[n..]
  {
  }

  lemma Associate(a: string, b: string, c: string)
    ensures a + (b + c) == a + b + c
  {
  }

  /** Trimming takes a run of trimmed characters off each end and nothing else. */
  lemma TrimSplits(p: char -> bool, s: string) returns (a: string, b: string)
    ensures AllOf(p, a) && AllOf(p, b)
    ensures s == a + Trim(p, s) + b
    ensures Trim(p, s) != "" ==> !p(Trim(p, s)[|Trim(p, s)| - 1])
  {
    var t, u := TrimStart(p, s), Trim(p, s);
    TrimStartSplits(p, s);
    TrimEndSplits(p, t);
    a, b := s[..|s| - |t|], t[|u|..];
    Cut(s, |s| - |t|);
    Cut(t, |u|);
    assert t[..|u|] == u;
    Associate(a, u, b);
  }

  lemma FirstOfTrim(p: char -> bool, s: string)
    ensures Trim(p, s) != "" ==> !p(Trim(p, s)[0])
  {
    TrimStartSplits(p, s);
    TrimEndSplits(p, TrimStart(p, s));
  }

  /** Trimming what is trimmed changes nothing. */
  lemma TrimTwice(p: char -> bool, s: string)
    ensures Trim(p, Trim(p, s)) == Trim(p, s)
  {
    FirstOfTrim(p, s);
    TrimEndSplits(p, TrimStart(p, s));
  }

  /** A run of trimmed characters behind a text that does not end in one is cut off exactly. */
  lemma {:induction false} TrimEndExact(p: char -> bool, s: string, tail: string)
    requires AllOf(p, tail)
    requires s != "" ==> !p(s[|s| - 1])
    ensures TrimEnd(p, s + tail) == s
    decreases |tail|
  {
    if tail == "" {
      assert s + tail == s;
    } else {
      var front := tail[..|tail| - 1];
      TrimEndExact(p, s, front);
      assert (s + tail)[..|s + tail| - 1] == s + front;
    }
  }

  lemma {:induction false} TrimStartExact(p: char -> bool, head: string, s: string)
    requires AllOf(p, head)
    requires s != "" ==> !p(s[0])
    ensures TrimStart(p, head + s) == s
  {
    if head == "" {
      assert head + s == s;
    } else {
      TrimStartExact(p, head[1..], s);
      assert (head + s)[1..] == head[1..] + s;
    }
  }

  /** Runs of trimmed characters around a text that neither starts nor ends in one are cut off
      exactly. */
  lemma TrimExact(p: char -> bool, head: string, s: string, tail: string)
    requires AllOf(p, head) && AllOf(p, tail)
    requires s != "" ==> !p(s[0]) && !p(s[|s| - 1])
    ensures Trim(p, head + s + tail) == s
  {
    if s == "" {
      TrimStartExact(p, head + tail, "");
      assert head + s + tail == head + tail + "";
    } else {
      TrimStartExact(p, head, s + tail);
      Associate(head, s, tail);
      TrimEndExact(p, s, tail);
    }
  }

  /** Nothing is left of a text exactly when all of it is trimmed. */
  lemma TrimEmptyExactly(p: char -> bool, s: string)
    ensures Trim(p, s) == "" <==> AllOf(p, s)
  {
    if Trim(p, s) == "" {
      var a, b := TrimSplits(p, s);
      assert s == a + b;
    }
    if AllOf(p, s) {
      TrimExact(p, s, "", "");
      assert s + "" + "" == s;
    }
  }

  // ----- character classes -----

  /** `x` is a capital and `y` its small letter. */
  predicate CasePair(x: char, y: char) { 'A' <= x <= 'Z' && y as int == x as int + ('a' as int - 'A' as int) }

  /** Upper and lower case differ exactly on the letters, and there by the pairs A a to Z z. */
  lemma LetterCases(c: char)
    ensures CasePair(c, Lower(c)) <==> IsUpper(c)
    ensures CasePair(Upper(c), c) <==> IsLower(c)
    ensures !IsUpper(c) ==> Lower(c) == c
    ensures !IsLower(c) ==> Upper(c) == c
    ensures IsUpper(c) <==> c as int in {65, 66, 67, 68, 69, 70, 71, 72, 73, 74, 75, 76, 77, 78, 79, 80, 81, 82, 83, 84,
                                         85, 86, 87, 88, 89, 90}
  {
  }

  /** Tab, line feed, vertical tab, form feed, carriage return and the space; for Python also the
      separators 28 to 31. */
  lemma SpaceCodes(c: char)
    ensures IsSpace(c) <==> c as int in {9, 10, 11, 12, 13, 32}
    ensures IsPythonSpace(c) <==> c as int in {9, 10, 11, 12, 13, 28, 29, 30, 31, 32}
  {
  }

  // ----- numerals -----

  function DigitOf(c: char): nat
    requires IsDigit(c)
  {
    c as int - '0' as int
  }

  function DigitChar(d: nat): (c: char)
    requires d < 10
    ensures IsDigit(c) && DigitOf(c) == d
  {
    ('0' as int + d) as char
  }

  /** `s` is written with the digits of base `b` only; the empty text qualifies. */
  predicate IsNumeral(s: string, b: nat) {
    forall i :: 0 <= i < |s| ==> IsDigit(s[i]) && DigitOf(s[i]) < b
  }

  function DigitsOf(s: string): (ds: seq<nat>)
    requires AllOf(IsDigit, s)
    ensures |ds| == |s|
    ensures forall i :: 0 <= i < |s| ==> ds[i] == DigitOf(s[i])
  {
    seq(|s|, i requires 0 <= i < |s| => DigitOf(s[i]))
  }

  /** What the numeral `s` denotes in base `b`. */
  function Read(s: string, b: nat): nat
    requires AllOf(IsDigit, s)
  {
    Value(DigitsOf(s), b)
  }

  /** The ten digits in their order. */
  lemma DigitMeaning(d: nat)
    requires d < 10
    ensures IsDigit("0123456789"[d]) && DigitOf("0123456789"[d]) == d
  {
  }

  lemma QuotientSmaller(n: nat, b: nat)
    requires 2 <= b <= n
    ensures n / b < n
  {
    DivMod(n, b);
    var q := n / b;
    if q >= n {
      MulMonotone(n, q, b);
      assert false;
    }
  }

  /** `n` printed without leading zeros. */
  function Print(n: nat, b: nat): string
    requires 2 <= b <= 10
    decreases n
  {
    DivMod(n, b);
    if n < b then [DigitChar(n)]
    else QuotientSmaller(n, b); Print(n / b, b) + [DigitChar(n % b)]
  }

  lemma ReadConcat(s: string, t: string, b: nat)
    requires AllOf(IsDigit, s) && AllOf(IsDigit, t)
    ensures AllOf(IsDigit, s + t)
    ensures Read(s + t, b) == Read(s, b) * Pow(b, |t|) + Read(t, b)
  {
    assert DigitsOf(s + t) == DigitsOf(s) + DigitsOf(t);
    ValueConcat(DigitsOf(s), DigitsOf(t), b);
  }

  lemma ReadDigit(c: char, b: nat)
    requires IsDigit(c)
    ensures Read([c], b) == DigitOf(c)
  {
    assert DigitsOf([c]) == [] + [DigitOf(c)];
    ValueSnoc([], DigitOf(c), b);
  }

  /** Printing and reading back, with the length a fixed number of digits allows. */
  lemma {:induction false} PrintRead(n: nat, b: nat, w: nat)
    requires 2 <= b <= 10
    requires n < Pow(b, w) && w > 0
    ensures 1 <= |Print(n, b)| <= w
    ensures IsNumeral(Print(n, b), b)
    ensures AllOf(IsDigit, Print(n, b))
    ensures Read(Print(n, b), b) == n
    decreases n
  {
    if n < b {
      ReadDigit(DigitChar(n), b);
    } else {
      DivMod(n, b);
      QuotientSmaller(n, b);
      PowOne(b);
      if w == 1 {
        assert false;
      }
      QuotientBelow(n, b, Pow(b, w - 1));
      PrintRead(n / b, b, w - 1);
      var c := DigitChar(n % b);
      ReadConcat(Print(n / b, b), [c], b);
      ReadDigit(c, b);
    }
  }

  lemma {:induction false} ReadZeros(n: nat, b: nat)
    ensures Read(Repeat('0', n), b) == 0
  {
    if n > 0 {
      ReadZeros(n - 1, b);
      ReadDigit('0', b);
      ReadConcat("0", Repeat('0', n - 1), b);
    }
  }

  /** Leading zeros do not change what a numeral denotes. */
  lemma PadStartRead(s: string, w: nat, b: nat)
    requires AllOf(IsDigit, s)
    ensures AllOf(IsDigit, PadStart(s, w, '0'))
    ensures |PadStart(s, w, '0')| == if |s| >= w then |s| else w
    ensures Read(PadStart(s, w, '0'), b) == Read(s, b)
  {
    if |s| < w {
      ReadZeros(w - |s|, b);
      ReadConcat(Repeat('0', w - |s|), s, b);
    }
  }

  /** `n` printed in exactly `w` digits denotes `n`. */
  lemma FixedWidth(n: nat, b: nat, w: nat)
    requires 2 <= b <= 10
    requires n < Pow(b, w) && w > 0
    ensures |PadStart(Print(n, b), w, '0')| == w
    ensures AllOf(IsDigit, PadStart(Print(n, b), w, '0'))
    ensures IsNumeral(PadStart(Print(n, b), w, '0'), b)
    ensures Read(PadStart(Print(n, b), w, '0'), b) == n
  {
    PrintRead(n, b, w);
    PadStartRead(Print(n, b), w, b);
  }
}
