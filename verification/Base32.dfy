/** The secret decoder of the screenshot script, and the encoding of section 6 of RFC 4648 that it
    undoes.
 */
module Base32 {
  import opened Positional
  import opened Text

  const ALPHABET := "ABCDEFGHIJKLMNOPQRSTUVWXYZ234567"

  predicate IsPad(c: char) { c == '=' }
  predicate IsNotSpace(c: char) { !IsSpace(c) }

  /** White space removed and letters folded to upper case. */
  function Fold(s: string): string {
    Map(Upper, Filter(IsNotSpace, s))
  }

  /** The text whose characters are decoded: trailing `=` first, then white space, then case. */
  function Clean(secret: string): string {
    Fold(TrimEnd(IsPad, secret))
  }

  /** JavaScript's `indexOf` for one character: the first position, or -1. */
  function IndexOf(s: string, c: char): (i: int)
    ensures -1 <= i < |s|
    ensures i >= 0 ==> s[i] == c
    ensures forall j :: 0 <= j < (if i < 0 then |s| else i) ==> s[j] != c
  {
    if s == "" then -1
    else if s[0] == c then 0
    else var i := IndexOf(s[1..], c); if i < 0 then -1 else i + 1
  }

  predicate InAlphabet(c: char) { IndexOf(ALPHABET, c) >= 0 }

  function Symbols(text: string): (ds: seq<nat>)
    requires AllOf(InAlphabet, text)
    ensures |ds| == |text|
    ensures IsDigits(ds, 32)
    ensures forall i :: 0 <= i < |text| ==> ds[i] == IndexOf(ALPHABET, text[i])
  {
    seq(|text|, i requires 0 <= i < |text| => IndexOf(ALPHABET, text[i]) as nat)
  }

  function Letters(ds: seq<nat>): (text: string)
    requires IsDigits(ds, 32)
    ensures |text| == |ds|
    ensures forall i :: 0 <= i < |ds| ==> text[i] == ALPHABET[ds[i]]
  {
    seq(|ds|, i requires 0 <= i < |ds| => ALPHABET[ds[i]])
  }

  function FirstBad(text: string): (i: nat)
    requires !AllOf(InAlphabet, text)
    ensures i < |text| && !InAlphabet(text[i]) && AllOf(InAlphabet, text[..i])
  {
    if !InAlphabet(text[0]) then 0 else 1 + FirstBad(text[1..])
  }

  /** The reference meaning of `n` base-32 digits as octets: the number they denote without its
      `5n mod 8` low bits, written in `5n / 8` octets. */
  function Octets(ds: seq<nat>): seq<nat>
  {
    PowPositive(2, 5 * |ds| % 8);
    Digits(Value(ds, 32) / Pow(2, 5 * |ds| % 8), 256, 5 * |ds| / 8)
  }

  /** What decoding `secret` yields: the octets, or the first character outside the alphabet. */
  function Decode(secret: string): Result<seq<nat>, char> {
    var text := Clean(secret);
    if AllOf(InAlphabet, text) then Ok(Octets(Symbols(text))) else Err(text[FirstBad(text)])
  }

  // ----- the bit string -----

  predicate IsBits(bits: string) { IsNumeral(bits, 2) && AllOf(IsDigit, bits) }

  lemma Constants()
    ensures Pow(2, 5) == 32
    ensures Pow(2, 8) == 256
  {
    PowOne(2);
    assert Pow(2, 2) == 4;
    assert Pow(2, 3) == 8;
    assert Pow(2, 4) == 16;
    assert Pow(2, 5) == 32;
    assert Pow(2, 6) == 64;
    assert Pow(2, 7) == 128;
  }

  lemma AppendSymbol(bits: string, ds: seq<nat>, value: nat)
    requires IsBits(bits) && value < 32
    requires Read(bits, 2) == Value(ds, 32)
    ensures |PadStart(Print(value, 2), 5, '0')| == 5
    ensures IsBits(bits + PadStart(Print(value, 2), 5, '0'))
    ensures Read(bits + PadStart(Print(value, 2), 5, '0'), 2) == Value(ds + [value], 32)
  {
    Constants();
    FixedWidth(value, 2, 5);
    ReadConcat(bits, PadStart(Print(value, 2), 5, '0'), 2);
    ValueSnoc(ds, value, 32);
  }

  lemma SymbolsSnoc(text: string, i: nat)
    requires i < |text| && AllOf(InAlphabet, text[..i]) && InAlphabet(text[i])
    ensures AllOf(InAlphabet, text[..i + 1])
    ensures Symbols(text[..i + 1]) == Symbols(text[..i]) + [IndexOf(ALPHABET, text[i])]
  {
    assert text[..i + 1] == text[..i] + [text[i]];
  }

  lemma CutOctet(bits: string, index: nat)
    requires IsBits(bits) && index + 8 <= |bits|
    ensures AllOf(IsDigit, bits[index..index + 8]) && AllOf(IsDigit, bits[index + 8..])
    ensures Groups(DigitsOf(bits[index..]), 2, 8)
         == [Read(bits[index..index + 8], 2)] + Groups(DigitsOf(bits[index + 8..]), 2, 8)
  {
    assert DigitsOf(bits[index..])[..8] == DigitsOf(bits[index..index + 8]);
    assert DigitsOf(bits[index..])[8..] == DigitsOf(bits[index + 8..]);
  }

  /** Cutting the bits of all digits into whole octets is the reference meaning. */
  lemma RegroupedBits(ds: seq<nat>, bits: string)
    requires IsDigits(ds, 32)
    requires IsBits(bits) && |bits| == 5 * |ds|
    requires Read(bits, 2) == Value(ds, 32)
    ensures Groups(DigitsOf(bits), 2, 8) == Octets(ds)
  {
    Constants();
    var all, n, r := DigitsOf(bits), 5 * |ds| / 8, 5 * |ds| % 8;
    assert 8 * n + r == |bits|;
    GroupsValue(all, 2, 8, n);
    TakeIsQuotient(all, 2, 8 * n);
    var octets := Groups(all, 2, 8);
    var v := Value(ds, 32) / Pow(2, r);
    assert Value(octets, 256) == v;
    ValueBound(octets, 256);
    DigitsValue(v, 256, n);
    ValueInjective(octets, Digits(v, 256, n), 256);
  }

  /** First loop of the decoder: five binary digits appended for each character. Also yields how
      many characters were taken; it stops early at the first one outside the alphabet. */
  method AppendBits(text: string) returns (bits: string, i: nat)
    ensures i <= |text| && AllOf(InAlphabet, text[..i])
    ensures i < |text| ==> !InAlphabet(text[i])
    ensures IsBits(bits) && |bits| == 5 * i
    ensures Read(bits, 2) == Value(Symbols(text[..i]), 32)
  {
    bits, i := "", 0;
    while i < |text|
      invariant i <= |text| && AllOf(InAlphabet, text[..i])
      invariant IsBits(bits) && |bits| == 5 * i
      invariant Read(bits, 2) == Value(Symbols(text[..i]), 32)
    {
      var value := IndexOf(ALPHABET, text[i]);
      if value < 0 {
        return;
      }
      AppendSymbol(bits, Symbols(text[..i]), value);
      SymbolsSnoc(text, i);
      bits := bits + PadStart(Print(value, 2), 5, '0');
      i := i + 1;
    }
  }

  /** Second loop of the decoder: octets parsed off the front until fewer than eight bits remain. */
  method CutOctets(bits: string) returns (bytes: seq<nat>)
    requires IsBits(bits)
    ensures bytes == Groups(DigitsOf(bits), 2, 8)
  {
    bytes := [];
    var index := 0;
    assert bits[0..] == bits;
    while index + 8 <= |bits|
      invariant 0 <= index <= |bits|
      invariant bytes + Groups(DigitsOf(bits[index..]), 2, 8) == Groups(DigitsOf(bits), 2, 8)
    {
      CutOctet(bits, index);
      bytes := bytes + [Read(bits[index..index + 8], 2)];
      index := index + 8;
    }
    assert Groups(DigitsOf(bits[index..]), 2, 8) == [];
  }

  lemma {:induction false} FirstBadIs(text: string, i: nat)
    requires i < |text| && AllOf(InAlphabet, text[..i]) && !InAlphabet(text[i])
    ensures !AllOf(InAlphabet, text) && FirstBad(text) == i
  {
    if i > 0 {
      assert text[..i][0] == text[0];
      assert text[1..][..i - 1] == text[..i][1..];
      FirstBadIs(text[1..], i - 1);
    }
  }

  lemma DecodeRejects(secret: string, i: nat)
    requires i < |Clean(secret)|
    requires AllOf(InAlphabet, Clean(secret)[..i]) && !InAlphabet(Clean(secret)[i])
    ensures Decode(secret) == Err(Clean(secret)[i])
  {
    FirstBadIs(Clean(secret), i);
  }

  method Base32ToBuffer(secret: string) returns (r: Result<seq<nat>, char>)
    requires IsAscii(secret)
    ensures r == Decode(secret)
  {
    var text := Map(Upper, Filter(IsNotSpace, TrimEnd(IsPad, secret)));
    var bits, taken := AppendBits(text);
    if taken < |text| {
      DecodeRejects(secret, taken);
      return Err(text[taken]);
    }
    assert text[..taken] == text;
    var bytes := CutOctets(bits);
    RegroupedBits(Symbols(text), bits);
    r := Ok(bytes);
  }

  // ----- the encoding of RFC 4648 -----

  predicate IsBytes(b: seq<nat>) { IsDigits(b, 256) }

  /** How many digits encode `k` octets: the fewest that hold `8k` bits. */
  function EncodedLength(k: nat): nat { (8 * k + 4) / 5 }

  /** The digits of one quantum: its octets as one number, extended on the right with zero bits to
      a multiple of five bits. */
  function Quantum(b: seq<nat>): seq<nat> {
    var n := EncodedLength(|b|);
    Digits(Value(b, 256) * Pow(2, 5 * n - 8 * |b|), 32, n)
  }

  /** Section 6 of RFC 4648: full quanta of five octets, then what is left. */
  function EncodeDigits(b: seq<nat>): seq<nat> {
    if b == [] then [] else if |b| < 5 then Quantum(b) else Quantum(b[..5]) + EncodeDigits(b[5..])
  }

  /** `n` base-32 digits hold exactly `m` octets and `k` further bits. */
  lemma SameBits(n: nat, m: nat, k: nat)
    requires 5 * n == 8 * m + k
    ensures Pow(32, n) == Pow(256, m) * Pow(2, k)
    ensures Pow(2, k) > 0
  {
    Constants();
    PowPositive(2, k);
    PowPow(2, 5, n);
    PowPow(2, 8, m);
    PowAdd(2, 8 * m, k);
  }

  lemma ProductBelow(x: nat, y: nat, z: nat)
    requires x < y && z > 0
    ensures x * z < y * z
  {
  }

  lemma EmptyValue(k: nat)
    ensures Value([], 32) == Value([], 256) * Pow(2, k)
  {
  }

  lemma QuantumValue(b: seq<nat>, n: nat, k: nat)
    requires IsBytes(b)
    requires 5 * n == 8 * |b| + k && k < 5
    ensures |Quantum(b)| == n && IsDigits(Quantum(b), 32)
    ensures Value(Quantum(b), 32) == Value(b, 256) * Pow(2, k)
  {
    assert EncodedLength(|b|) == n;
    SameBits(n, |b|, k);
    ValueBound(b, 256);
    ProductBelow(Value(b, 256), Pow(256, |b|), Pow(2, k));
    DigitsValue(Value(b, 256) * Pow(2, k), 32, n);
  }

  lemma Distribute(x: nat, y: nat, p: nat, q: nat, w: nat)
    requires w == p * q
    ensures x * w + y * q == (x * p + y) * q
  {
    assert x * (p * q) == x * p * q;
  }

  lemma EncodeStep(b: seq<nat>, head: seq<nat>, tail: seq<nat>, m: nat, k: nat)
    requires |b| == m + 5 && 5 * |tail| == 8 * m + k
    requires Value(head, 32) == Value(b[..5], 256) * Pow(2, 0)
    requires Value(tail, 32) == Value(b[5..], 256) * Pow(2, k)
    ensures Value(head + tail, 32) == Value(b, 256) * Pow(2, k)
  {
    var x, y := Value(b[..5], 256), Value(b[5..], 256);
    assert Value(head, 32) == x;
    assert Value(b, 256) == x * Pow(256, m) + y by {
      assert b == b[..5] + b[5..];
      ValueConcat(b[..5], b[5..], 256);
    }
    ValueConcat(head, tail, 32);
    SameBits(|tail|, m, k);
    Distribute(x, y, Pow(256, m), Pow(2, k), Pow(32, |tail|));
  }

  /** What the encoding denotes: the octets' number followed by the `k` zero bits that fill the
      last of its `n` digits. */
  lemma {:induction false} EncodeValue(b: seq<nat>, n: nat, k: nat)
    requires IsBytes(b)
    requires 5 * n == 8 * |b| + k && k < 5
    ensures |EncodeDigits(b)| == n
    ensures IsDigits(EncodeDigits(b), 32)
    ensures Value(EncodeDigits(b), 32) == Value(b, 256) * Pow(2, k)
    decreases |b|
  {
    if b == [] {
      EmptyValue(k);
    } else if |b| < 5 {
      QuantumValue(b, n, k);
    } else {
      QuantumValue(b[..5], 8, 0);
      EncodeValue(b[5..], n - 8, k);
      EncodeStep(b, Quantum(b[..5]), EncodeDigits(b[5..]), |b| - 5, k);
    }
  }

  // ----- round trips -----

  lemma DroppedLowBits(v: nat, p: nat, m: nat)
    requires p > 0 && v < Pow(256, m) * p
    ensures 0 <= v / p
    ensures |Digits(v / p, 256, m)| == m
    ensures IsDigits(Digits(v / p, 256, m), 256)
    ensures Value(Digits(v / p, 256, m), 256) == v / p
  {
    var top := Pow(256, m);
    assert top * p == p * top;
    QuotientBelow(v, p, top);
    DigitsValue(v / p, 256, m);
  }

  /** `n` digits give `m = 5n / 8` octets that denote the digits' number over `2^(5n mod 8)`. */
  lemma OctetsValue(ds: seq<nat>, m: nat, r: nat)
    requires IsDigits(ds, 32)
    requires 5 * |ds| == 8 * m + r && r < 8
    ensures Pow(2, r) > 0
    ensures |Octets(ds)| == m && IsBytes(Octets(ds))
    ensures Value(Octets(ds), 256) == Value(ds, 32) / Pow(2, r)
  {
    SameBits(|ds|, m, r);
    ValueBound(ds, 32);
    DroppedLowBits(Value(ds, 32), Pow(2, r), m);
    assert 5 * |ds| / 8 == m && 5 * |ds| % 8 == r;
  }

  /** Decoding undoes encoding, digit by digit. */
  lemma OctetsOfEncoded(b: seq<nat>)
    requires IsBytes(b)
    ensures IsDigits(EncodeDigits(b), 32)
    ensures Octets(EncodeDigits(b)) == b
  {
    var n := EncodedLength(|b|);
    var k := 5 * n - 8 * |b|;
    EncodeValue(b, n, k);
    OctetsValue(EncodeDigits(b), |b|, k);
    QuotientOf(Value(b, 256), 0, Pow(2, k));
    ValueInjective(Octets(EncodeDigits(b)), b, 256);
  }

  lemma LengthSurvives(n: nat)
    ensures EncodedLength(5 * n / 8) == n <==> n % 8 in {0, 2, 4, 5, 7}
  {
    var q, r := n / 8, n % 8;
    assert n == 8 * q + r;
    assert 5 * n / 8 == 5 * q + 5 * r / 8;
    assert EncodedLength(5 * q + 5 * r / 8) == 8 * q + EncodedLength(5 * r / 8);
  }

  /** A digit sequence survives decoding and encoding again exactly when its length is one that
      encoding produces and the bits the decoder drops are zero. The decoder itself accepts every
      length and any dropped bits. */
  lemma ReencodesExactly(ds: seq<nat>)
    requires IsDigits(ds, 32)
    ensures Pow(2, 5 * |ds| % 8) > 0
    ensures EncodeDigits(Octets(ds)) == ds
       <==> |ds| % 8 in {0, 2, 4, 5, 7} && Value(ds, 32) % Pow(2, 5 * |ds| % 8) == 0
  {
    var n, m, r := |ds|, 5 * |ds| / 8, 5 * |ds| % 8;
    var k := 5 * EncodedLength(m) - 8 * m;
    OctetsValue(ds, m, r);
    EncodeValue(Octets(ds), EncodedLength(m), k);
    LengthSurvives(n);
    if n % 8 in {0, 2, 4, 5, 7} {
      assert k == r;
      DivMod(Value(ds, 32), Pow(2, r));
      if Value(ds, 32) % Pow(2, r) == 0 {
        ValueInjective(EncodeDigits(Octets(ds)), ds, 32);
      }
    }
  }

  // ----- texts -----

  lemma AlphabetAt(d: nat)
    requires d < 32
    ensures |ALPHABET| == 32
    ensures ALPHABET[d] as int == if d < 26 then 'A' as int + d else '2' as int + (d - 26)
  {
  }

  lemma AlphabetIndex(d: nat)
    requires d < 32
    ensures |ALPHABET| == 32
    ensures IndexOf(ALPHABET, ALPHABET[d]) == d
    ensures IsNotSpace(ALPHABET[d]) && !IsPad(ALPHABET[d]) && Upper(ALPHABET[d]) == ALPHABET[d]
  {
    AlphabetAt(d);
    var i := IndexOf(ALPHABET, ALPHABET[d]);
    if 0 <= i {
      AlphabetAt(i);
    }
  }

  lemma SymbolsOfLetters(ds: seq<nat>)
    requires IsDigits(ds, 32)
    ensures AllOf(InAlphabet, Letters(ds))
    ensures Symbols(Letters(ds)) == ds
  {
    forall i | 0 <= i < |ds|
      ensures IndexOf(ALPHABET, Letters(ds)[i]) == ds[i]
    {
      AlphabetIndex(ds[i]);
    }
  }

  lemma {:induction false} FoldedLetters(ds: seq<nat>)
    requires IsDigits(ds, 32)
    ensures Fold(Letters(ds)) == Letters(ds)
  {
    if ds != [] {
      AlphabetIndex(ds[0]);
      FoldedLetters(ds[1..]);
      var text := Letters(ds);
      assert text[1..] == Letters(ds[1..]);
      assert Filter(IsNotSpace, text) == [text[0]] + Filter(IsNotSpace, text[1..]);
      assert Fold(text) == [text[0]] + Fold(text[1..]);
    }
  }

  predicate IsNotPad(c: char) { !IsPad(c) }

  /** The decoder reads a text without `=` the same way however it is padded behind, and only
      through its upper-case letters and digits: letter case and white space do not matter. */
  lemma CaseSpaceAndPaddingIgnored(x: string, m: nat, y: string, n: nat)
    requires AllOf(IsNotPad, x) && AllOf(IsNotPad, y)
    requires Fold(x) == Fold(y)
    ensures Decode(x + Repeat('=', m)) == Decode(y + Repeat('=', n))
  {
    TrimEndExact(IsPad, x, Repeat('=', m));
    TrimEndExact(IsPad, y, Repeat('=', n));
  }

  // ----- letter case -----

  /** The same text, but for the case of letters. */
  predicate SameButCase(s: string, t: string) {
    |s| == |t| && forall i :: 0 <= i < |s| ==> s[i] == t[i] || CasePair(s[i], t[i]) || CasePair(t[i], s[i])
  }

  lemma SameButCaseTail(s: string, t: string, n: nat)
    requires SameButCase(s, t) && n <= |s|
    ensures SameButCase(s[n..], t[n..]) && SameButCase(s[..n], t[..n])
  {
  }

  lemma {:induction false} TrimEndAnyCase(s: string, t: string)
    requires SameButCase(s, t)
    ensures |TrimEnd(IsPad, s)| == |TrimEnd(IsPad, t)|
    ensures SameButCase(TrimEnd(IsPad, s), TrimEnd(IsPad, t))
  {
    if s != "" && IsPad(s[|s| - 1]) {
      SameButCaseTail(s, t, |s| - 1);
      TrimEndAnyCase(s[..|s| - 1], t[..|t| - 1]);
    }
  }

  lemma FoldFirst(s: string)
    requires s != ""
    ensures Fold(s) == (if IsSpace(s[0]) then "" else [Upper(s[0])]) + Fold(s[1..])
  {
    var kept := Filter(IsNotSpace, s);
    if !IsSpace(s[0]) {
      assert kept[1..] == Filter(IsNotSpace, s[1..]);
    }
  }

  lemma {:induction false} FoldAnyCase(s: string, t: string)
    requires SameButCase(s, t)
    ensures Fold(s) == Fold(t)
  {
    if s != "" {
      SameButCaseTail(s, t, 1);
      FoldAnyCase(s[1..], t[1..]);
      FoldFirst(s);
      FoldFirst(t);
      LetterCases(s[0]);
      LetterCases(t[0]);
    }
  }

  /** The decoder does not see the case of letters, not even in what it refuses. */
  lemma CaseIgnored(s: string, t: string)
    requires SameButCase(s, t)
    ensures Decode(s) == Decode(t)
  {
    TrimEndAnyCase(s, t);
    FoldAnyCase(TrimEnd(IsPad, s), TrimEnd(IsPad, t));
  }

  lemma LowerCaseIgnored(s: string)
    ensures Decode(Map(Lower, s)) == Decode(s)
  {
    forall i | 0 <= i < |s|
      ensures s[i] == Map(Lower, s)[i] || CasePair(s[i], Map(Lower, s)[i])
    {
      LetterCases(s[i]);
    }
    CaseIgnored(Map(Lower, s), s);
  }

  // ----- white space in a whole secret -----

  function Unspaced(s: string): string { Filter(IsNotSpace, s) }

  predicate EndsInPad(s: string) { s != "" && IsPad(s[|s| - 1]) }

  /** White space stands behind some `=` and no other character does. */
  predicate SpaceBehindPadding(secret: string) { EndsInPad(Unspaced(TrimEnd(IsPad, secret))) }

  lemma {:induction false} FilterConcat(p: char -> bool, x: string, y: string)
    ensures Filter(p, x + y) == Filter(p, x) + Filter(p, y)
  {
    if x == "" {
      assert x + y == y;
    } else {
      FilterConcat(p, x[1..], y);
      assert (x + y)[1..] == x[1..] + y;
      Associate(if p(x[0]) then [x[0]] else "", Filter(p, x[1..]), Filter(p, y));
    }
  }

  lemma {:induction false} FilterKeepsAll(p: char -> bool, s: string)
    requires AllOf(p, s)
    ensures Filter(p, s) == s
  {
    if s != "" {
      FilterKeepsAll(p, s[1..]);
      assert s == [s[0]] + s[1..];
    }
  }

  lemma {:induction false} FilterLeaves(p: char -> bool, s: string)
    ensures AllOf(p, Filter(p, s))
  {
    if s != "" {
      FilterLeaves(p, s[1..]);
    }
  }

  lemma {:induction false} TrimEndBehind(p: char -> bool, s: string, tail: string)
    requires AllOf(p, tail)
    ensures TrimEnd(p, s + tail) == TrimEnd(p, s)
    decreases |tail|
  {
    if tail == "" {
      assert s + tail == s;
    } else {
      TrimEndBehind(p, s, tail[..|tail| - 1]);
      assert (s + tail)[..|s + tail| - 1] == s + tail[..|tail| - 1];
    }
  }

  lemma UnspacedPadded(t: string, pads: string)
    requires AllOf(IsPad, pads)
    ensures Unspaced(t + pads) == Unspaced(t) + pads
  {
    FilterConcat(IsNotSpace, t, pads);
    FilterKeepsAll(IsNotSpace, pads);
  }

  /** Without white space a secret is read up to its padding. */
  lemma CleanUnspaced(secret: string)
    ensures Clean(Unspaced(secret)) == Map(Upper, TrimEnd(IsPad, Unspaced(TrimEnd(IsPad, secret))))
  {
    var t := TrimEnd(IsPad, secret);
    var u := Unspaced(t);
    TrimEndSplits(IsPad, secret);
    assert secret == t + secret[|t|..];
    UnspacedPadded(t, secret[|t|..]);
    TrimEndBehind(IsPad, u, secret[|t|..]);
    FilterLeaves(IsNotSpace, t);
    TrimEndSplits(IsPad, u);
    FilterKeepsAll(IsNotSpace, TrimEnd(IsPad, u));
  }

  lemma PadIsForeign()
    ensures !InAlphabet('=')
  {
    var i := IndexOf(ALPHABET, '=');
    if i >= 0 {
      AlphabetIndex(i);
    }
  }

  lemma RefusedWithin(text: string, v: string)
    requires v <= text && !AllOf(InAlphabet, v)
    ensures !AllOf(InAlphabet, text) && text[FirstBad(text)] == v[FirstBad(v)]
  {
    var j := FirstBad(v);
    assert text[..j] == v[..j];
    FirstBadIs(text, j);
  }

  /** A text that goes on with `=` behind `v` is refused there or before. */
  lemma RefusedBehind(text: string, v: string)
    requires v < text && text[|v|] == '='
    ensures !AllOf(InAlphabet, text)
    ensures text[FirstBad(text)] == if AllOf(InAlphabet, v) then '=' else v[FirstBad(v)]
  {
    if AllOf(InAlphabet, v) {
      PadIsForeign();
      assert text[..|v|] == v;
      FirstBadIs(text, |v|);
    } else {
      RefusedWithin(text, v);
    }
  }

  lemma FoldedPadding(u: string, v: string)
    requires v < u && AllOf(IsPad, u[|v|..])
    ensures Map(Upper, v) < Map(Upper, u) && Map(Upper, u)[|v|] == '='
  {
    assert u[|v|..][0] == u[|v|];
    assert Map(Upper, u)[..|v|] == Map(Upper, v);
  }

  lemma PaddingRefused(secret: string, other: string, v: string)
    requires v < Clean(secret) && Clean(secret)[|v|] == '=' && Clean(other) == v
    ensures Decode(secret) == Decode(other) <==> Decode(other).Err?
    ensures Decode(other).Ok? ==> Decode(secret) == Err('=')
  {
    RefusedBehind(Clean(secret), v);
  }

  /** White space may be dropped from a secret exactly if it does not stand behind padding, or the
      secret is refused without it too. Behind the padding of any other secret it makes `=` a foreign
      character. */
  lemma SpaceIgnoredExactly(secret: string)
    ensures Decode(secret) == Decode(Unspaced(secret))
       <==> !SpaceBehindPadding(secret) || Decode(Unspaced(secret)).Err?
    ensures SpaceBehindPadding(secret) && Decode(Unspaced(secret)).Ok? ==> Decode(secret) == Err('=')
  {
    var u := Unspaced(TrimEnd(IsPad, secret));
    var v := TrimEnd(IsPad, u);
    CleanUnspaced(secret);
    TrimEndSplits(IsPad, u);
    if EndsInPad(u) {
      FoldedPadding(u, v);
      PaddingRefused(secret, Unspaced(secret), Map(Upper, v));
    }
  }

  lemma UnspacedBroken(s: string, n: nat)
    ensures Unspaced(s + Repeat('=', n) + "\n") == Unspaced(s) + Repeat('=', n)
  {
    FilterConcat(IsNotSpace, s + Repeat('=', n), "\n");
    UnspacedPadded(s, Repeat('=', n));
    assert Filter(IsNotSpace, "\n") == "";
  }

  lemma {:induction false} FilteredNotPad(s: string)
    requires AllOf(IsNotPad, s)
    ensures AllOf(IsNotPad, Unspaced(s))
  {
    if s != "" {
      FilteredNotPad(s[1..]);
    }
  }

  /** A line break behind the padding of a good secret makes it a bad one. */
  lemma LineBreakBehindPadding(s: string, n: nat)
    requires AllOf(IsNotPad, s) && Decode(s).Ok? && n > 0
    ensures Decode(s + Repeat('=', n)) == Decode(s)
    ensures Decode(s + Repeat('=', n) + "\n") == Err('=')
  {
    var padded := s + Repeat('=', n);
    var broken := padded + "\n";
    CaseSpaceAndPaddingIgnored(s, n, s, 0);
    assert s + Repeat('=', 0) == s;
    assert TrimEnd(IsPad, broken) == broken;
    UnspacedBroken(s, n);
    CleanUnspaced(broken);
    FilterLeaves(IsNotSpace, s);
    FilteredNotPad(s);
    TrimEndExact(IsPad, Unspaced(s), Repeat('=', n));
    TrimEndExact(IsPad, s, "");
    assert s + "" == s;
    assert Clean(Unspaced(broken)) == Clean(s);
    assert SpaceBehindPadding(broken);
    SpaceIgnoredExactly(broken);
  }

  lemma EncodedDigits(b: seq<nat>)
    requires IsBytes(b)
    ensures IsDigits(EncodeDigits(b), 32)
  {
    OctetsOfEncoded(b);
  }

  /** How many `=` fill `n` letters up to a multiple of eight. */
  function PaddingCount(n: nat): (k: nat)
    ensures k < 8 && (n + k) % 8 == 0
  {
    (8 - n % 8) % 8
  }

  function Padded(text: string): (s: string)
    ensures |s| % 8 == 0
  {
    text + Repeat('=', PaddingCount(|text|))
  }

  /** The padded encoding of section 6 of RFC 4648. */
  function Encode(b: seq<nat>): (s: string)
    requires IsBytes(b)
    ensures |s| % 8 == 0
  {
    EncodedDigits(b);
    Padded(Letters(EncodeDigits(b)))
  }

  /** Any spelling of an encoding, in either case, broken up by white space and with any number of
      `=` behind it, decodes to the octets that were encoded. */
  lemma DecodesAnySpelling(b: seq<nat>, t: string, m: nat)
    requires IsBytes(b)
    requires AllOf(IsNotPad, t)
    requires IsDigits(EncodeDigits(b), 32)
    requires Fold(t) == Letters(EncodeDigits(b))
    ensures Decode(t + Repeat('=', m)) == Ok(b)
  {
    TrimEndExact(IsPad, t, Repeat('=', m));
    SymbolsOfLetters(EncodeDigits(b));
    OctetsOfEncoded(b);
  }

  lemma LettersAreNotPadding(ds: seq<nat>)
    requires IsDigits(ds, 32)
    ensures AllOf(IsNotPad, Letters(ds))
  {
    forall i | 0 <= i < |ds|
      ensures IsNotPad(Letters(ds)[i])
    {
      AlphabetIndex(ds[i]);
    }
  }

  /** The round trip through the standard encoding. */
  lemma DecodeUndoesEncode(b: seq<nat>)
    requires IsBytes(b)
    ensures Decode(Encode(b)) == Ok(b)
  {
    EncodedDigits(b);
    var ds := EncodeDigits(b);
    FoldedLetters(ds);
    LettersAreNotPadding(ds);
    DecodesAnySpelling(b, Letters(ds), PaddingCount(|ds|));
  }

  /** So does it in small letters, or any mixture. */
  lemma DecodeUndoesAnyCase(b: seq<nat>, t: string)
    requires IsBytes(b) && SameButCase(Encode(b), t)
    ensures Decode(t) == Ok(b)
    ensures Decode(Map(Lower, Encode(b))) == Ok(b)
  {
    DecodeUndoesEncode(b);
    CaseIgnored(Encode(b), t);
    LowerCaseIgnored(Encode(b));
  }

  /** A secret is accepted exactly when every cleaned character is in the alphabet, and then `n` of
      them give `5n / 8` octets that denote the same number without its `5n mod 8` low bits. */
  lemma DecodeIsPositional(secret: string)
    ensures Decode(secret).Ok? <==> AllOf(InAlphabet, Clean(secret))
    ensures Decode(secret).Ok? ==>
      var n, bytes := |Clean(secret)|, Decode(secret).value;
      && |bytes| == 5 * n / 8
      && IsBytes(bytes)
      && Pow(2, 5 * n % 8) > 0
      && Value(bytes, 256) == Value(Symbols(Clean(secret)), 32) / Pow(2, 5 * n % 8)
    ensures Decode(secret).Err? ==>
      exists i :: 0 <= i < |Clean(secret)| && Clean(secret)[i] == Decode(secret).error
               && !InAlphabet(Clean(secret)[i]) && AllOf(InAlphabet, Clean(secret)[..i])
  {
    var text := Clean(secret);
    if AllOf(InAlphabet, text) {
      OctetsValue(Symbols(text), 5 * |text| / 8, 5 * |text| % 8);
    } else {
      var i := FirstBad(text);
      assert !InAlphabet(text[i]);
    }
  }
}
