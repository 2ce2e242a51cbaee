/** Positional number systems: a digit sequence, most significant digit first, and the number it
    denotes. The regrouping of 5-bit groups into 8-bit groups, decimal printing and big-endian
    counters are all statements about `Value`.
 */
module Positional {

  function Pow(b: nat, e: nat): nat {
    if e == 0 then 1 else b * Pow(b, e - 1)
  }

  /** The number denoted by `ds` in base `b`. */
  function Value(ds: seq<nat>, b: nat): nat {
    if ds == [] then 0 else Value(ds[..|ds| - 1], b) * b + ds[|ds| - 1]
  }

  predicate IsDigits(ds: seq<nat>, b: nat) {
    forall i :: 0 <= i < |ds| ==> ds[i] < b
  }

  /** The `w` low digits of `v` in base `b`. */
  function Digits(v: nat, b: nat, w: nat): seq<nat>
    requires b > 0
    decreases w
  {
    if w == 0 then [] else Digits(v / b, b, w - 1) + [v % b]
  }

  lemma {:induction false} PowPositive(b: nat, e: nat)
    requires b > 0
    ensures Pow(b, e) > 0
  {
    if e > 0 {
      PowPositive(b, e - 1);
      assert b * Pow(b, e - 1) > 0;
    }
  }

  lemma PowOne(b: nat)
    ensures Pow(b, 1) == b
  {
    assert Pow(b, 0) == 1;
  }

  lemma {:induction false} PowAdd(b: nat, x: nat, y: nat)
    ensures Pow(b, x + y) == Pow(b, x) * Pow(b, y)
  {
    if x == 0 {
      assert Pow(b, 0) == 1;
    } else {
      PowAdd(b, x - 1, y);
      calc {
        Pow(b, x + y);
        b * Pow(b, x - 1 + y);
        b * (Pow(b, x - 1) * Pow(b, y));
        (b * Pow(b, x - 1)) * Pow(b, y);
      }
    }
  }

  lemma {:induction false} PowPow(b: nat, k: nat, n: nat)
    ensures Pow(Pow(b, k), n) == Pow(b, k * n)
  {
    if n > 0 {
      PowPow(b, k, n - 1);
      PowAdd(b, k, k * (n - 1));
      assert k + k * (n - 1) == k * n;
    }
  }

  lemma HornerStep(x: nat, q: nat, y: nat, d: nat, b: nat)
    ensures (x * q + y) * b + d == x * (b * q) + (y * b + d)
  {
    assert x * q * b == x * (b * q);
  }

  lemma {:induction false} ValueConcat(a: seq<nat>, c: seq<nat>, b: nat)
    ensures Value(a + c, b) == Value(a, b) * Pow(b, |c|) + Value(c, b)
  {
    if c == [] {
      assert a + c == a;
    } else {
      var p, d := c[..|c| - 1], c[|c| - 1];
      ValueConcat(a, p, b);
      assert (a + c)[..|a + c| - 1] == a + p;
      HornerStep(Value(a, b), Pow(b, |p|), Value(p, b), d, b);
    }
  }

  lemma MulMonotone(x: int, y: int, b: nat)
    requires x <= y
    ensures x * b <= y * b
  {
  }

  lemma HornerBound(v: nat, d: nat, b: nat, p: nat)
    requires v < p && d < b
    ensures v * b + d < b * p
  {
    MulMonotone(v + 1, p, b);
  }

  lemma {:induction false} ValueBound(ds: seq<nat>, b: nat)
    requires IsDigits(ds, b)
    ensures Value(ds, b) < Pow(b, |ds|)
  {
    if ds != [] {
      var p := ds[..|ds| - 1];
      ValueBound(p, b);
      HornerBound(Value(p, b), ds[|ds| - 1], b, Pow(b, |p|));
    }
  }

  lemma ValueSnoc(p: seq<nat>, d: nat, b: nat)
    ensures Value(p + [d], b) == Value(p, b) * b + d
  {
    assert (p + [d])[..|p|] == p;
  }

  lemma DivMod(v: int, b: nat)
    requires b > 0
    ensures (v / b) * b + v % b == v
    ensures 0 <= v % b < b
  {
  }

  lemma QuotientBelow(v: nat, b: nat, p: nat)
    requires b > 0
    requires v < b * p
    ensures 0 <= v / b < p
  {
    var q := v / b;
    assert q * b + v % b == v;
    if q >= p {
      MulMonotone(p, q, b);
      assert false;
    }
  }

  /** Printing with enough digits and reading back. */
  lemma {:induction false} DigitsValue(v: nat, b: nat, w: nat)
    requires b > 0
    requires v < Pow(b, w)
    ensures |Digits(v, b, w)| == w
    ensures IsDigits(Digits(v, b, w), b)
    ensures Value(Digits(v, b, w), b) == v
    decreases w
  {
    if w > 0 {
      var q, r := v / b, v % b;
      DivMod(v, b);
      QuotientBelow(v, b, Pow(b, w - 1));
      DigitsValue(q, b, w - 1);
      ValueSnoc(Digits(q, b, w - 1), r, b);
    }
  }

  lemma QuotientRemainderUnique(p: int, r: nat, q: int, s: nat, b: nat)
    requires r < b && s < b
    requires p * b + r == q * b + s
    ensures p == q && r == s
  {
    if p < q {
      MulMonotone(p + 1, q, b);
      assert false;
    } else if q < p {
      MulMonotone(q + 1, p, b);
      assert false;
    }
  }

  /** Two digit sequences of one length that denote the same number are the same sequence. */
  lemma {:induction false} ValueInjective(x: seq<nat>, y: seq<nat>, b: nat)
    requires |x| == |y|
    requires IsDigits(x, b) && IsDigits(y, b)
    requires Value(x, b) == Value(y, b)
    ensures x == y
  {
    if x != [] {
      var p, q := x[..|x| - 1], y[..|y| - 1];
      QuotientRemainderUnique(Value(p, b), x[|x| - 1], Value(q, b), y[|y| - 1], b);
      ValueInjective(p, q, b);
      assert x == p + [x[|x| - 1]];
      assert y == q + [y[|y| - 1]];
    }
  }

  lemma QuotientOf(q: nat, r: nat, p: nat)
    requires r < p
    ensures (q * p + r) / p == q
    ensures (q * p + r) % p == r
  {
    var v := q * p + r;
    assert (v / p) * p + v % p == v;
    QuotientRemainderUnique(q, r, v / p, v % p, p);
  }

  /** Dropping the last `k` digits divides by `b^k`, rounding down. */
  lemma TakeIsQuotient(ds: seq<nat>, b: nat, n: nat)
    requires b > 0 && n <= |ds|
    requires IsDigits(ds, b)
    ensures Pow(b, |ds| - n) > 0
    ensures Value(ds[..n], b) == Value(ds, b) / Pow(b, |ds| - n)
  {
    PowPositive(b, |ds| - n);
    assert ds == ds[..n] + ds[n..];
    ValueConcat(ds[..n], ds[n..], b);
    ValueBound(ds[n..], b);
    QuotientOf(Value(ds[..n], b), Value(ds[n..], b), Pow(b, |ds| - n));
  }

  /** Consecutive groups of `k` digits, read as digits of base `b^k`; a last partial group is
      dropped. */
  function Groups(ds: seq<nat>, b: nat, k: nat): seq<nat>
    requires k > 0
    decreases |ds|
  {
    if |ds| < k then [] else [Value(ds[..k], b)] + Groups(ds[k..], b, k)
  }

  lemma GroupsValueStep(ds: seq<nat>, b: nat, k: nat, n: nat, gs: seq<nat>)
    requires k + k * n <= |ds|
    requires |gs| == n
    requires Value(gs, Pow(b, k)) == Value(ds[k..][..k * n], b)
    ensures k * (n + 1) == k + k * n
    ensures Value([Value(ds[..k], b)] + gs, Pow(b, k)) == Value(ds[..k * (n + 1)], b)
  {
    var first, rest := ds[..k], ds[k..][..k * n];
    assert k * (n + 1) == k + k * n;
    assert ds[..k + k * n] == first + rest;
    ValueConcat(first, rest, b);
    var head := [Value(first, b)];
    assert Value(head, Pow(b, k)) == Value(first, b) by {
      assert head[..0] == [];
    }
    ValueConcat(head, gs, Pow(b, k));
    PowPow(b, k, n);
  }

  lemma {:induction false} GroupsValue(ds: seq<nat>, b: nat, k: nat, n: nat)
    requires b > 0 && k > 0
    requires IsDigits(ds, b)
    requires k * n <= |ds| < k * n + k
    ensures |Groups(ds, b, k)| == n
    ensures IsDigits(Groups(ds, b, k), Pow(b, k))
    ensures Value(Groups(ds, b, k), Pow(b, k)) == Value(ds[..k * n], b)
    decreases n
  {
    if n == 0 {
    } else {
      var rest := ds[k..];
      assert k * n == k + k * (n - 1);
      GroupsValue(rest, b, k, n - 1);
      ValueBound(ds[..k], b);
      GroupsValueStep(ds, b, k, n - 1, Groups(rest, b, k));
    }
  }

  /** If `n` parts of size `k` fit into `total`, there are at most `total / k` of them. */
  lemma FitsInto(n: int, k: int, total: int)
    requires n >= 0 && k >= 1 && total >= 0 && n * k <= total
    ensures n <= total / k
  {
    DivMod(total, k);
    if total / k + 1 <= n {
      MulMonotone(total / k + 1, n, k);
    }
  }

  lemma TenToSix()
    ensures Pow(10, 6) == 1_000_000
  {
    PowOne(10);
    assert Pow(10, 2) == 100;
    assert Pow(10, 3) == 1_000;
    assert Pow(10, 4) == 10_000;
    assert Pow(10, 5) == 100_000;
  }
}
