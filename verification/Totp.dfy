/** The six-digit login code of the screenshot script: the counter of section 4.2 of RFC 6238 and
    the dynamic truncation of section 5.3 of RFC 4226. The HMAC itself is any function from a key
    and a message to 20 octets.
 */
module Totp {
  import opened Positional
  import opened Text
  import opened Base32

  type Digest = d: seq<bv8> | |d| == 20 witness seq(20, _ => 0 as bv8)

  datatype TotpError = CounterOutOfRange | InvalidCharacter(c: char)

  /** The 30 second window that `nowMs` falls in. */
  function Counter(nowMs: int): int { nowMs / 30000 }

  /** An unsigned 64-bit counter as eight octets, most significant first. */
  function CounterMessage(counter: nat): seq<nat> { Digits(counter, 256, 8) }

  function OctetValues(d: seq<bv8>): (ds: seq<nat>)
    ensures |ds| == |d|
    ensures forall i :: 0 <= i < |d| ==> ds[i] == d[i] as int
    ensures IsDigits(ds, 256)
  {
    seq(|d|, i requires 0 <= i < |d| => d[i] as int)
  }

  /** The reference truncation: the four octets at the offset named by the last octet's low four
      bits, as one big-endian number without its top bit. */
  function Truncate(d: Digest): nat {
    var offset := d[19] as int % 16;
    Value(OctetValues(d[offset..offset + 4]), 256) % 0x8000_0000
  }

  function SixDigits(binary: nat): string {
    PadStart(Print(binary % 1_000_000, 10), 6, '0')
  }

  /** The code a correct generator prints, or why it throws. */
  function Code(hmac: (seq<nat>, seq<nat>) -> Digest, secret: string, nowMs: int)
    : Result<string, TotpError>
  {
    var counter := Counter(nowMs);
    if !(0 <= counter < 0x1_0000_0000_0000_0000) then Err(CounterOutOfRange)
    else
      match Decode(secret)
      case Err(c) => Err(InvalidCharacter(c))
      case Ok(key) => Ok(SixDigits(Truncate(hmac(key, CounterMessage(counter)))))
  }

  // ----- the shift-and-or expression -----

  lemma LowBits(x: bv8)
    ensures (x & 0x0f) as int == x as int % 16
    ensures (x & 0x7f) as int == x as int % 128
    ensures x & 0x7f < 0x80
  {
  }

  lemma ShiftIn(x: bv32, y: bv8)
    requires x < 0x80_0000
    ensures (x << 8) | y as bv32 < 0x8000_0000
    ensures ((x << 8) | y as bv32) as int == x as int * 256 + y as int
  {
  }

  lemma SmallWord(x: bv8)
    requires x < 0x80
    ensures x as bv32 < 0x80
    ensures (x as bv32) as int == x as int
  {
  }

  lemma ShiftedTogether(a: bv8, b: bv8, c: bv8, d: bv8)
    requires a < 0x80
    ensures (a as bv32 << 8) | b as bv32 < 0x8000
    ensures (((a as bv32 << 8) | b as bv32) << 8) | c as bv32 < 0x80_0000
    ensures (a as bv32 << 24) | ((b & 0xff) as bv32 << 16) | ((c & 0xff) as bv32 << 8) | (d & 0xff) as bv32
         == (((((a as bv32 << 8) | b as bv32) << 8) | c as bv32) << 8) | d as bv32
  {
  }

  lemma FourOctets(d: seq<bv8>)
    requires |d| == 4
    ensures Value(OctetValues(d), 256)
         == ((d[0] as int * 256 + d[1] as int) * 256 + d[2] as int) * 256 + d[3] as int
  {
    var v := OctetValues(d);
    ValueSnoc([], v[0], 256);
    ValueSnoc([v[0]], v[1], 256);
    ValueSnoc([v[0], v[1]], v[2], 256);
    ValueSnoc([v[0], v[1], v[2]], v[3], 256);
    assert v == [v[0], v[1], v[2]] + [v[3]];
    assert [v[0], v[1], v[2]] == [v[0], v[1]] + [v[2]];
    assert [v[0], v[1]] == [v[0]] + [v[1]];
    assert [v[0]] == [] + [v[0]];
  }

  lemma TopBitDropped(a: nat, b: nat, c: nat, d: nat)
    requires a < 256 && b < 256 && c < 256 && d < 256
    ensures (((a * 256 + b) * 256 + c) * 256 + d) % 0x8000_0000
         == ((a % 128 * 256 + b) * 256 + c) * 256 + d
  {
  }

  /** The bitwise expression is the big-endian number of the four octets modulo 2^31. */
  lemma ShiftAndOrIsValue(d: seq<bv8>)
    requires |d| == 4
    ensures (((d[0] & 0x7f) as bv32 << 24) | ((d[1] & 0xff) as bv32 << 16)
             | ((d[2] & 0xff) as bv32 << 8) | (d[3] & 0xff) as bv32) as int
         == Value(OctetValues(d), 256) % 0x8000_0000
  {
    var a := d[0] & 0x7f;
    LowBits(d[0]);
    SmallWord(a);
    ShiftedTogether(a, d[1], d[2], d[3]);
    var ab := (a as bv32 << 8) | d[1] as bv32;
    var abc := (ab << 8) | d[2] as bv32;
    ShiftIn(a as bv32, d[1]);
    ShiftIn(ab, d[2]);
    ShiftIn(abc, d[3]);
    FourOctets(d);
    TopBitDropped(d[0] as int, d[1] as int, d[2] as int, d[3] as int);
  }

  /** The truncation as the script writes it. All four octets it reads lie inside the digest. */
  function ShiftAndOr(digest: Digest): (binary: bv32)
    ensures binary as int == Truncate(digest)
  {
    LowBits(digest[19]);
    var offset := (digest[|digest| - 1] & 0x0f) as int;
    ShiftAndOrIsValue(digest[offset..offset + 4]);
    ((digest[offset] & 0x7f) as bv32 << 24)
    | ((digest[offset + 1] & 0xff) as bv32 << 16)
    | ((digest[offset + 2] & 0xff) as bv32 << 8)
    | (digest[offset + 3] & 0xff) as bv32
  }

  // ----- the generator -----

  lemma WindowOfSeconds(ms: int)
    ensures ms / 1000 / 30 == Counter(ms)
  {
  }

  /** Counter, key, digest, truncation and printing as the script performs them. */
  method GenerateTotpCode(hmac: (seq<nat>, seq<nat>) -> Digest, secret: string, nowMs: int)
    returns (r: Result<string, TotpError>)
    requires IsAscii(secret)
    ensures r == Code(hmac, secret, nowMs)
  {
    var counter := nowMs / 1000 / 30;
    WindowOfSeconds(nowMs);
    if counter < 0 || counter >= 0x1_0000_0000_0000_0000 {
      return Err(CounterOutOfRange);
    }
    var key := Base32ToBuffer(secret);
    if key.Err? {
      return Err(InvalidCharacter(key.error));
    }
    var binary := ShiftAndOr(hmac(key.value, CounterMessage(counter)));
    r := Ok(SixDigits(binary as int));
  }

  // ----- what the code means -----

  /** Every code is six decimal digits that denote the truncated number modulo 10^6. */
  lemma SixDigitsDenote(binary: nat)
    ensures |SixDigits(binary)| == 6
    ensures AllOf(IsDigit, SixDigits(binary))
    ensures Read(SixDigits(binary), 10) == binary % 1_000_000
  {
    TenToSix();
    FixedWidth(binary % 1_000_000, 10, 6);
  }

  predicate InWindow(w: int, ms: int) {
    30000 * w <= ms < 30000 * (w + 1)
  }

  lemma CounterMessageDenotes(counter: nat)
    requires counter < 0x1_0000_0000_0000_0000
    ensures |CounterMessage(counter)| == 8
    ensures Value(CounterMessage(counter), 256) == counter
  {
    Constants();
    PowPow(2, 8, 8);
    PowAdd(2, 8, 8);
    PowAdd(2, 16, 16);
    PowAdd(2, 32, 32);
    DigitsValue(counter, 256, 8);
  }

  /** Windows are numbered from the epoch. */
  lemma CounterIsWindow(w: int, ms: int)
    ensures Counter(ms) == w <==> InWindow(w, ms)
  {
  }

  lemma MessageIsCounter(message: seq<nat>, w: nat)
    requires w < 0x1_0000_0000_0000_0000
    requires |message| == 8 && IsDigits(message, 256) && Value(message, 256) == w
    ensures CounterMessage(w) == message
  {
    CounterMessageDenotes(w);
    Constants();
    PowPow(2, 8, 8);
    PowAdd(2, 8, 8);
    PowAdd(2, 16, 16);
    PowAdd(2, 32, 32);
    DigitsValue(w, 256, 8);
    ValueInjective(CounterMessage(w), message, 256);
  }

  /** The code at a moment is six digits that denote the truncated digest, modulo 10^6, of the HMAC
      whose key is what the secret decodes to and whose message is the number of the moment's window
      in eight octets; there is none exactly for a secret that does not decode or a window that does
      not fit. */
  lemma CodeIsTruncatedDigest(hmac: (seq<nat>, seq<nat>) -> Digest, secret: string, ms: int, w: int, message: seq<nat>)
    requires InWindow(w, ms)
    ensures Code(hmac, secret, ms).Err? <==> w < 0 || w >= 0x1_0000_0000_0000_0000 || Decode(secret).Err?
    ensures Code(hmac, secret, ms).Ok? && |message| == 8 && IsDigits(message, 256) && Value(message, 256) == w ==>
      var code := Code(hmac, secret, ms).value;
      && |code| == 6 && AllOf(IsDigit, code)
      && Read(code, 10) == Truncate(hmac(Decode(secret).value, message)) % 1_000_000
  {
    CounterIsWindow(w, ms);
    if Code(hmac, secret, ms).Ok? && |message| == 8 && IsDigits(message, 256) && Value(message, 256) == w {
      MessageIsCounter(message, w);
      SixDigitsDenote(Truncate(hmac(Decode(secret).value, message)));
    }
  }

  /** The worked example of section 5.4 of RFC 4226. */
  lemma TruncateExample(d: Digest)
    requires d == [0x1f, 0x86, 0x98, 0x69, 0x0e, 0x02, 0xca, 0x16, 0x61, 0x85,
                   0x50, 0xef, 0x7f, 0x19, 0xda, 0x8e, 0x94, 0x5b, 0x55, 0x5a]
    ensures Truncate(d) == 0x50ef7f19 && Truncate(d) % 1_000_000 == 872921
  {
    assert d[10..14] == [0x50, 0xef, 0x7f, 0x19];
    FourOctets(d[10..14]);
  }

  /** Within the range of the counter the authenticated message is the same for two moments exactly
      when they share a window; inside one window the code never changes, in that range or not. */
  lemma CodePerWindow(hmac: (seq<nat>, seq<nat>) -> Digest, secret: string, s: int, t: int)
    ensures 0 <= Counter(s) < 0x1_0000_0000_0000_0000 && 0 <= Counter(t) < 0x1_0000_0000_0000_0000 ==>
      (CounterMessage(Counter(s)) == CounterMessage(Counter(t)) <==> exists w :: InWindow(w, s) && InWindow(w, t))
    ensures (exists w :: InWindow(w, s) && InWindow(w, t)) ==> Code(hmac, secret, s) == Code(hmac, secret, t)
  {
    if 0 <= Counter(s) < 0x1_0000_0000_0000_0000 && 0 <= Counter(t) < 0x1_0000_0000_0000_0000 {
      CounterMessageDenotes(Counter(s));
      CounterMessageDenotes(Counter(t));
    }
    assert InWindow(Counter(s), s);
    if w :| InWindow(w, s) && InWindow(w, t) {
      assert Counter(s) == w == Counter(t);
    }
  }
}
