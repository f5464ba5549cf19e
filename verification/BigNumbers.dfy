/** Numbers as sequences of 64-bit digits, least significant first, and the word arithmetic on them
    (thirdparty/rapidjson/internal/biginteger.h). Disjoint bit patterns are joined by addition,
    shifts are multiplications and divisions by powers of two, and wrap-around is written out. */
module BigNumbers {

  const HALF: nat := 0x1_0000_0000
  const B: nat := 0x1_0000_0000_0000_0000

  type Half = x: nat | x < HALF witness 0
  type Digit = x: nat | x < B witness 0

  function Pow(b: nat, n: nat): nat {
    if n == 0 then 1 else b * Pow(b, n - 1)
  }

  /** What a digit is worth at a position. */
  function Place(n: nat, d: nat): nat { Pow(B, n) * d }

  /** The number a sequence of digits stands for. */
  function Val(s: seq<Digit>): nat {
    if s == [] then 0 else s[0] + B * Val(s[1..])
  }

  /** No leading zero digit, except for the number zero itself. */
  predicate Normal(s: seq<Digit>) {
    |s| >= 1 && (|s| > 1 ==> s[|s| - 1] != 0)
  }

  // ----- Arithmetic -----

  lemma MulAssoc(a: nat, b: nat, c: nat)
    ensures a * (b * c) == (a * b) * c
  {
  }

  lemma MulMono(a: nat, b: nat, c: nat)
    requires a <= b
    ensures a * c <= b * c && c * a <= c * b
  {
  }

  lemma MulPositive(a: nat, b: nat)
    requires a > 0 && b > 0
    ensures a * b > 0
  {
  }

  lemma {:induction false} PowPositive(b: nat, n: nat)
    requires b > 0
    ensures Pow(b, n) > 0
  {
    if n > 0 {
      PowPositive(b, n - 1);
      MulPositive(b, Pow(b, n - 1));
    }
  }

  lemma {:induction false} PowSum(b: nat, m: nat, n: nat)
    ensures Pow(b, m + n) == Pow(b, m) * Pow(b, n)
  {
    if m > 0 {
      PowSum(b, m - 1, n);
      MulAssoc(b, Pow(b, m - 1), Pow(b, n));
    }
  }

  lemma {:induction false} PowProduct(b: nat, c: nat, n: nat)
    ensures Pow(b * c, n) == Pow(b, n) * Pow(c, n)
  {
    if n > 0 {
      PowProduct(b, c, n - 1);
      Interchange(b, c, Pow(b, n - 1), Pow(c, n - 1));
    }
  }

  lemma Interchange(a: nat, b: nat, c: nat, d: nat)
    ensures (a * b) * (c * d) == (a * c) * (b * d)
  {
    MulAssoc(a, b, c * d);
    MulAssoc(b, c, d);
    MulAssoc(c, b, d);
    assert b * c == c * b;
    MulAssoc(a, c, b * d);
  }

  lemma {:induction false} PowMonotone(b: nat, m: nat, n: nat)
    requires b > 0 && m <= n
    ensures Pow(b, m) <= Pow(b, n)
  {
    PowSum(b, m, n - m);
    PowPositive(b, n - m);
    MulMono(1, Pow(b, n - m), Pow(b, m));
  }

  lemma {:induction false} PowBaseMonotone(b: nat, c: nat, n: nat)
    requires b <= c
    ensures Pow(b, n) <= Pow(c, n)
  {
    if n > 0 {
      PowBaseMonotone(b, c, n - 1);
      MulMono(b, c, Pow(b, n - 1));
      MulMono(Pow(b, n - 1), Pow(c, n - 1), c);
    }
  }

  // ----- Digits -----

  lemma OneDigit(d: Digit)
    ensures Val([d]) == d && Normal([d])
  {
    assert [d][1..] == [];
  }

  lemma {:induction false} ValSnoc(s: seq<Digit>, d: Digit)
    ensures Val(s + [d]) == Val(s) + Pow(B, |s|) * d
  {
    if s == [] {
      assert [d][1..] == [];
    } else {
      ValSnoc(s[1..], d);
      assert (s + [d])[1..] == s[1..] + [d];
      MulAssoc(B, Pow(B, |s| - 1), d);
    }
  }

  lemma ValPrefix(s: seq<Digit>, i: nat)
    requires i < |s|
    ensures Val(s[..i + 1]) == Val(s[..i]) + Place(i, s[i])
  {
    assert s[..i + 1] == s[..i] + [s[i]];
    ValSnoc(s[..i], s[i]);
  }

  lemma {:induction false} ValBelow(s: seq<Digit>)
    ensures Val(s) < Pow(B, |s|)
  {
    if s != [] {
      ValBelow(s[1..]);
      MulMono(Val(s[1..]) + 1, Pow(B, |s| - 1), B);
    }
  }

  /** The leading digit bounds the number from below. */
  lemma ValAbove(s: seq<Digit>)
    requires |s| > 1 && Normal(s)
    ensures Val(s) >= Pow(B, |s| - 1)
  {
    var n := |s| - 1;
    ValPrefix(s, n);
    assert s[..n + 1] == s;
    MulMono(1, s[n], Pow(B, n));
  }

  /** A normal number below B^n has at most n digits. */
  lemma DigitsBound(s: seq<Digit>, n: nat)
    requires Normal(s) && Val(s) < Pow(B, n) && n > 0
    ensures |s| <= n
  {
    if |s| > n {
      ValAbove(s);
      PowMonotone(B, n, |s| - 1);
    }
  }

  /** Digits in normal form are unique. */
  lemma {:induction false} ValIsInjective(s: seq<Digit>, t: seq<Digit>)
    requires |s| == |t| && Val(s) == Val(t)
    ensures s == t
  {
    if s != [] {
      HeadAndTail(s[0], Val(s[1..]), t[0], Val(t[1..]));
      ValIsInjective(s[1..], t[1..]);
      assert s == [s[0]] + s[1..] && t == [t[0]] + t[1..];
    }
  }

  lemma HeadAndTail(a: Digit, x: nat, b: Digit, y: nat)
    requires a + B * x == b + B * y
    ensures a == b && x == y
  {
  }

  lemma {:induction false} ValUpdate(s: seq<Digit>, i: nat, d: Digit)
    requires i < |s|
    ensures Val(s[i := d]) + Pow(B, i) * s[i] == Val(s) + Pow(B, i) * d
  {
    if i == 0 {
      assert s[0 := d][1..] == s[1..];
    } else {
      ValUpdate(s[1..], i - 1, d);
      assert s[i := d][1..] == s[1..][i - 1 := d];
      var p := Pow(B, i - 1);
      MulAssoc(B, p, s[i]);
      MulAssoc(B, p, d);
      assert B * (Val(s[1..][i - 1 := d]) + p * s[i]) == B * (Val(s[1..]) + p * d);
    }
  }

  function Zeros(n: nat): (r: seq<Digit>)
    ensures |r| == n && forall k :: 0 <= k < n ==> r[k] == 0
  {
    seq(n, _ => 0)
  }

  lemma {:induction false} ValOfShifted(n: nat, s: seq<Digit>)
    ensures Val(Zeros(n) + s) == Pow(B, n) * Val(s)
  {
    if n == 0 {
      assert Zeros(0) + s == s;
    } else {
      ValOfShifted(n - 1, s);
      assert (Zeros(n) + s)[1..] == Zeros(n - 1) + s;
      MulAssoc(B, Pow(B, n - 1), Val(s));
    }
  }

  /** A digit appended to the value when it is zero changes nothing. */
  lemma ValDropZero(s: seq<Digit>)
    requires s != [] && s[|s| - 1] == 0
    ensures Val(s[..|s| - 1]) == Val(s)
  {
    assert s == s[..|s| - 1] + [0];
    ValSnoc(s[..|s| - 1], 0);
  }

  // ----- Comparing -----

  /** The leading digit where two numbers of equal length differ decides. */
  lemma {:induction false} LeadingDecides(s: seq<Digit>, t: seq<Digit>, i: nat)
    requires |s| == |t| && i < |s| && s[i] < t[i] && forall k :: i < k < |s| ==> s[k] == t[k]
    ensures Val(s) < Val(t)
  {
    if i == 0 {
      assert s[1..] == t[1..];
    } else {
      LeadingDecides(s[1..], t[1..], i - 1);
      MulMono(Val(s[1..]) + 1, Val(t[1..]), B);
    }
  }

  lemma ShorterIsSmaller(s: seq<Digit>, t: seq<Digit>)
    requires Normal(s) && Normal(t) && |s| < |t|
    ensures Val(s) < Val(t)
  {
    ValBelow(s);
    ValAbove(t);
    PowMonotone(B, |s|, |t| - 1);
  }

  // ----- Words -----

  /** Multiplication of 64-bit words by 32-bit parts, every sum and shift modulo 2^64. */
  method Mul64(a: Digit, b: Digit) returns (low: Digit, high: nat)
    ensures low + B * high == a * b
  {
    var a0, a1, b0, b1 := a % HALF, a / HALF, b % HALF, b / HALF;
    var x0, x1, x2, x3 := a0 * b0, a0 * b1, a1 * b0, a1 * b1;
    PartsAreSmall(a0, b0);
    PartsAreSmall(a0, b1);
    PartsAreSmall(a1, b0);
    Product(a0, a1, b0, b1);
    low, high := JoinParts(x0, x1, x2, x3);
  }

  /** A shift by 32 bits loses the upper half. */
  function ShiftedByHalf(z: Digit): (r: Digit)
    ensures r == (z % HALF) * HALF
  {
    assert z * HALF == B * (z / HALF) + (z % HALF) * HALF;
    (z * HALF) % B
  }

  method JoinParts(x0: nat, x1: nat, x2: nat, x3: nat) returns (low: Digit, high: nat)
    requires x0 <= PART_BOUND && x1 <= PART_BOUND && x2 <= PART_BOUND
    ensures low + B * high == x0 + HALF * (x1 + x2) + B * x3
  {
    var y1 := (x1 + x0 / HALF) % B;
    assert y1 == x1 + x0 / HALF;
    var z1 := (y1 + x2) % B;
    var y3 := x3;
    if z1 < x2 {
      y3 := y3 + HALF;
    }
    low := ShiftedByHalf(z1) + x0 % HALF;
    high := y3 + z1 / HALF;
  }

  const PART_BOUND: nat := (HALF - 1) * (HALF - 1)

  /** The low word of a product and a carry, with the high word. */
  method MulAdd64(a: Digit, b: Digit, k: Digit) returns (lo: Digit, hi: Digit)
    ensures lo + B * hi == a * b + k
  {
    var low, high := Mul64(a, b);
    lo := (low + k) % B;
    if lo < k {
      high := high + 1;
    }
    TotalIsSmall(a, b, k, lo, high);
    hi := high;
  }

  lemma PartsAreSmall(a: Half, b: Half)
    ensures a * b <= PART_BOUND
  {
    MulMono(a, HALF - 1, b);
    MulMono(b, HALF - 1, HALF - 1);
  }

  lemma Product(a0: nat, a1: nat, b0: nat, b1: nat)
    ensures (a0 + HALF * a1) * (b0 + HALF * b1) == a0 * b0 + HALF * (a0 * b1 + a1 * b0) + B * (a1 * b1)
  {
    assert (a0 + HALF * a1) * (b0 + HALF * b1) == a0 * (b0 + HALF * b1) + (HALF * a1) * (b0 + HALF * b1);
    assert a0 * (b0 + HALF * b1) == a0 * b0 + HALF * (a0 * b1);
    assert (HALF * a1) * (b0 + HALF * b1) == HALF * (a1 * b0) + (HALF * HALF) * (a1 * b1);
  }

  lemma TotalIsSmall(a: Digit, b: Digit, k: Digit, lo: Digit, high: nat)
    requires lo + B * high == a * b + k
    ensures high < B
  {
    MulMono(a, B - 1, b);
    MulMono(b, B - 1, B - 1);
    assert a * b <= (B - 1) * (B - 1);
  }
}
