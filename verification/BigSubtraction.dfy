/** Digit-wise subtraction as the big integer does it, and exactly when it is right
    (thirdparty/rapidjson/internal/biginteger.h:194-203). */
module BigSubtraction {
  import opened BigNumbers

  /** The same number with more digits. */
  function Padded(t: seq<Digit>, n: nat): (r: seq<Digit>)
    requires |t| <= n
    ensures |r| == n
  {
    t + Zeros(n - |t|)
  }

  /** The borrow into digit `i`: whether the digit below came out larger than it was. */
  function Borrow(s: seq<Digit>, t: seq<Digit>, i: nat): nat
    requires i <= |s| == |t|
    decreases i, 0
  {
    if i == 0 then 0 else if Difference(s, t, i - 1) > s[i - 1] then 1 else 0
  }

  /** Digit `i` of the result, modulo the digit size. */
  function Difference(s: seq<Digit>, t: seq<Digit>, i: nat): Digit
    requires i < |s| == |t|
    decreases i, 1
  {
    (s[i] - Borrow(s, t, i) - t[i]) % B
  }

  function Differences(s: seq<Digit>, t: seq<Digit>, n: nat): (r: seq<Digit>)
    requires n <= |s| == |t|
    ensures |r| == n && forall i :: 0 <= i < n ==> r[i] == Difference(s, t, i)
  {
    if n == 0 then [] else Differences(s, t, n - 1) + [Difference(s, t, n - 1)]
  }

  /** A borrow into a digit from which only ones are subtracted is not passed on. */
  predicate LosesBorrow(s: seq<Digit>, t: seq<Digit>, i: nat)
    requires i < |s| == |t|
  {
    Borrow(s, t, i) == 1 && t[i] == B - 1
  }

  /** What the lost borrows are worth. */
  function Lost(s: seq<Digit>, t: seq<Digit>, n: nat): nat
    requires n <= |s| == |t|
  {
    if n == 0 then 0 else Lost(s, t, n - 1) + if LosesBorrow(s, t, n - 1) then Place(n, 1) else 0
  }

  lemma DigitStep(x: Digit, y: Digit, borrow: nat, d: Digit)
    requires borrow <= 1 && d == (x - borrow - y) % B
    ensures d + y + borrow == x + B * ((if d > x then 1 else 0) + (if borrow == 1 && y == B - 1 then 1 else 0))
  {
    if x >= borrow + y {
      assert d == x - borrow - y;
    } else {
      assert d == x - borrow - y + B;
    }
  }

  /** The lower `n` digits of the result: too large by what was borrowed and by what was lost. */
  lemma {:induction false} PartialDifference(s: seq<Digit>, t: seq<Digit>, n: nat)
    requires n <= |s| == |t|
    ensures Val(Differences(s, t, n)) + Val(t[..n]) == Val(s[..n]) + Place(n, Borrow(s, t, n)) + Lost(s, t, n)
  {
    if n > 0 {
      PartialDifference(s, t, n - 1);
      OneDigitMore(s, t, n - 1);
    }
  }

  lemma OneDigitMore(s: seq<Digit>, t: seq<Digit>, i: nat)
    requires i < |s| == |t|
    requires Val(Differences(s, t, i)) + Val(t[..i]) == Val(s[..i]) + Place(i, Borrow(s, t, i)) + Lost(s, t, i)
    ensures Val(Differences(s, t, i + 1)) + Val(t[..i + 1]) ==
            Val(s[..i + 1]) + Place(i + 1, Borrow(s, t, i + 1)) + Lost(s, t, i + 1)
  {
    var borrow, d := Borrow(s, t, i), Difference(s, t, i);
    var next, loss := Borrow(s, t, i + 1), if LosesBorrow(s, t, i) then 1 else 0;
    DigitStep(s[i], t[i], borrow, d);
    assert Differences(s, t, i + 1)[..i] == Differences(s, t, i);
    assert Differences(s, t, i + 1)[..i + 1] == Differences(s, t, i + 1);
    assert Lost(s, t, i + 1) == Lost(s, t, i) + if loss == 1 then Place(i + 1, 1) else 0;
    hide Val, Place, Lost, Borrow, Difference, Differences, LosesBorrow;
    ValPrefix(Differences(s, t, i + 1), i);
    ValPrefix(s, i);
    ValPrefix(t, i);
    PlaceSum(i, d, t[i], borrow, s[i], next + loss);
    Together(i + 1, next, loss);
  }

  lemma PlaceSum(i: nat, d: nat, y: nat, borrow: nat, x: nat, up: nat)
    requires d + y + borrow == x + B * up
    ensures Place(i, d) + Place(i, y) + Place(i, borrow) == Place(i, x) + Place(i + 1, up)
  {
    var p := Pow(B, i);
    assert p * d + p * y + p * borrow == p * (d + y + borrow);
    assert p * (x + B * up) == p * x + (B * p) * up;
  }

  lemma Together(n: nat, a: nat, b: nat)
    requires b <= 1
    ensures Place(n, a + b) == Place(n, a) + if b == 1 then Place(n, 1) else 0
  {
  }

  lemma {:induction false} LostNothing(s: seq<Digit>, t: seq<Digit>, n: nat)
    requires n <= |s| == |t|
    ensures Lost(s, t, n) == 0 <==> forall i :: 0 <= i < n ==> !LosesBorrow(s, t, i)
  {
    if n > 0 {
      LostNothing(s, t, n - 1);
      PowPositive(B, n);
      assert LosesBorrow(s, t, n - 1) ==> Place(n, 1) > 0;
    }
  }

  /** While no borrow has been lost, a digit is borrowed from exactly if the lower digits of the
      minuend are the smaller number. */
  lemma BorrowIsTrue(s: seq<Digit>, t: seq<Digit>, i: nat)
    requires i <= |s| == |t| && Lost(s, t, i) == 0
    ensures Borrow(s, t, i) == 1 <==> Val(s[..i]) < Val(t[..i])
  {
    PartialDifference(s, t, i);
    ValBelow(Differences(s, t, i));
    hide Val, Lost, Difference;
    assert Place(i, 0) == 0 && Place(i, 1) == Pow(B, i);
  }

  /** No digit of `t` with all bits set is above lower digits that are greater than those of `s`. */
  predicate NoBorrowMeetsOnes(s: seq<Digit>, t: seq<Digit>)
    requires |t| <= |s|
  {
    forall i :: 0 <= i < |t| && t[i] == B - 1 ==> Val(t[..i]) <= Val(s[..i])
  }

  lemma {:induction false} BorrowsKeptUpTo(s: seq<Digit>, t: seq<Digit>, n: nat)
    requires n <= |s| == |t|
    ensures Lost(s, t, n) == 0 <==> forall i :: 0 <= i < n && t[i] == B - 1 ==> Val(t[..i]) <= Val(s[..i])
  {
    if n > 0 {
      BorrowsKeptUpTo(s, t, n - 1);
      LostNothing(s, t, n);
      LostNothing(s, t, n - 1);
      if Lost(s, t, n - 1) == 0 { BorrowIsTrue(s, t, n - 1); }
    }
  }

  /** Never too small, and right exactly if no borrow meets a digit with all bits set. */
  lemma DifferenceIsExactIff(s: seq<Digit>, t: seq<Digit>)
    requires |t| <= |s| && Val(s) > Val(t)
    ensures var d := Val(Differences(s, Padded(t, |s|), |s|));
            d >= Val(s) - Val(t) && (d == Val(s) - Val(t) <==> NoBorrowMeetsOnes(s, t))
  {
    var n, p := |s|, Padded(t, |s|);
    ZerosAppended(t, n - |t|);
    PartialDifference(s, p, n);
    BorrowsKeptUpTo(s, p, n);
    ValBelow(Differences(s, p, n));
    assert s[..n] == s && p[..n] == p;
    assert forall i :: 0 <= i < |t| ==> p[..i] == t[..i];
    hide Val, Lost, Borrow, Difference, Differences;
    assert Place(n, 0) == 0 && Place(n, 1) == Pow(B, n);
  }

  /** Zero digits at the end do not count. */
  lemma LeadingZeros(d: seq<Digit>, n: nat)
    requires n <= |d| && forall k :: n <= k < |d| ==> d[k] == 0
    ensures Val(d[..n]) == Val(d)
  {
    assert d == d[..n] + Zeros(|d| - n);
    ZerosAppended(d[..n], |d| - n);
  }

  lemma {:induction false} ZerosAppended(t: seq<Digit>, m: nat)
    ensures Val(t + Zeros(m)) == Val(t)
  {
    if m == 0 {
      assert t + Zeros(0) == t;
    } else {
      ZerosAppended(t, m - 1);
      assert t + Zeros(m) == (t + Zeros(m - 1)) + [0];
      ValSnoc(t + Zeros(m - 1), 0);
    }
  }

  lemma ThreeDigits(a: Digit, b: Digit, c: Digit)
    ensures Val([a, b, c]) == a + B * (b + B * c)
  {
    assert [a, b, c][1..] == [b, c] && [b, c][1..] == [c];
    OneDigit(c);
  }

  /** B^2 less B^2 - B + 1 comes out B^2 too large. */
  lemma BorrowLost()
    ensures var s: seq<Digit>, t: seq<Digit> := [0, 0, 1], [1, B - 1, 0];
            Val(s) > Val(t) && Val(Differences(s, t, 3)) == Val(s) - Val(t) + B * B
  {
    var s: seq<Digit>, t: seq<Digit> := [0, 0, 1], [1, B - 1, 0];
    ThreeDigits(0, 0, 1);
    ThreeDigits(1, B - 1, 0);
    assert Difference(s, t, 0) == B - 1;
    assert Borrow(s, t, 1) == 1 && Difference(s, t, 1) == 0;
    assert Borrow(s, t, 2) == 0 && Difference(s, t, 2) == 1;
    assert Differences(s, t, 3) == [B - 1, 0, 1];
    ThreeDigits(B - 1, 0, 1);
  }

  // ----- A result that is one of the operands -----

  /** Where the result is put. */
  datatype Reuse = Neither | Minuend | Subtrahend

  /** The lowest digit where two numbers differ. */
  function FirstUnequal(s: seq<Digit>, t: seq<Digit>): (f: nat)
    requires |s| == |t| && s != t
    ensures f < |s| && s[f] != t[f] && s[..f] == t[..f]
  {
    if s[0] != t[0] then 0 else
      assert s == [s[0]] + s[1..] && t == [t[0]] + t[1..];
      var f := 1 + FirstUnequal(s[1..], t[1..]);
      assert s[..f] == [s[0]] + s[1..][..f - 1] && t[..f] == [t[0]] + t[1..][..f - 1];
      f
  }

  /** The first digit of the result that is not zero becomes the last one counted: if the result is
      the minuend, the loop ends there; if it is the subtrahend, nothing above is subtracted. */
  function Turn(s: seq<Digit>, t: seq<Digit>): (f: nat)
    requires |t| <= |s| && Val(s) > Val(t)
    ensures f < |s| && s[f] != Padded(t, |s|)[f] && s[..f] == Padded(t, |s|)[..f]
  {
    ZerosAppended(t, |s| - |t|);
    FirstUnequal(s, Padded(t, |s|))
  }

  function Subtracted(s: seq<Digit>, t: seq<Digit>, reuse: Reuse): (r: seq<Digit>)
    requires |t| <= |s| && Val(s) > Val(t)
    ensures |r| == |s|
  {
    var f := Turn(s, t);
    Padded(if reuse == Subtrahend && f + 1 < |t| then t[..f + 1] else t, |s|)
  }

  /** How many digits are computed. */
  function Computed(s: seq<Digit>, t: seq<Digit>, reuse: Reuse): (n: nat)
    requires |t| <= |s| && Val(s) > Val(t)
    ensures Turn(s, t) < n <= |s|
  {
    if reuse == Minuend then Turn(s, t) + 1 else |s|
  }

  function Outcome(s: seq<Digit>, t: seq<Digit>, reuse: Reuse): seq<Digit>
    requires |t| <= |s| && Val(s) > Val(t)
  {
    Differences(s, Subtracted(s, t, reuse), Computed(s, t, reuse))
  }

  /** When the result is the difference. */
  predicate IsExact(s: seq<Digit>, t: seq<Digit>, reuse: Reuse)
    requires |t| <= |s| && Val(s) > Val(t)
  {
    var f, p := Turn(s, t), Padded(t, |s|);
    match reuse
    case Neither => NoBorrowMeetsOnes(s, t)
    case Minuend => Val(s[f + 1..]) == Val(p[f + 1..]) + if s[f] < p[f] then 1 else 0
    case Subtrahend => |t| <= f + 1
  }

  /** Below the digit where the numbers first differ nothing is left, and there something is. */
  lemma {:induction false} NothingBelow(s: seq<Digit>, t: seq<Digit>, f: nat, i: nat)
    requires i <= f < |s| == |t| && s[..f] == t[..f] && s[f] != t[f]
    ensures Borrow(s, t, i) == 0 && (Difference(s, t, i) == 0 <==> i < f)
  {
    if i < f { assert s[i] == s[..f][i] == t[..f][i] == t[i]; }
    if i > 0 { NothingBelow(s, t, f, i - 1); }
  }

  lemma {:induction false} ZerosBelow(s: seq<Digit>, t: seq<Digit>, f: nat, n: nat)
    requires n <= f < |s| == |t| && s[..f] == t[..f] && s[f] != t[f]
    ensures Differences(s, t, n) == Zeros(n)
  {
    if n > 0 {
      ZerosBelow(s, t, f, n - 1);
      NothingBelow(s, t, f, n - 1);
    }
  }

  lemma {:induction false} ValSplit(s: seq<Digit>, i: nat)
    requires i < |s|
    ensures Val(s) == Val(s[..i]) + Pow(B, i) * (s[i] + B * Val(s[i + 1..]))
  {
    if i == 0 {
      assert Pow(B, 0) == 1;
    } else {
      ValSplit(s[1..], i - 1);
      assert s[..i][1..] == s[1..][..i - 1] && s[1..][i..] == s[i + 1..];
      MulAssoc(B, Pow(B, i - 1), s[i] + B * Val(s[i + 1..]));
      assert s[1..][i - 1] == s[i];
    }
  }

  /** The digit alone is the difference exactly if what lies above it is only what it borrows. */
  lemma OneDigitDifference(s: seq<Digit>, t: seq<Digit>, f: nat)
    requires f < |s| == |t| && s[..f] == t[..f] && s[f] != t[f]
    ensures Val(Differences(s, t, f + 1)) == Val(s) - Val(t) <==>
            Val(s[f + 1..]) == Val(t[f + 1..]) + if s[f] < t[f] then 1 else 0
  {
    var d := Difference(s, t, f);
    NothingBelow(s, t, f, f);
    ZerosBelow(s, t, f, f);
    assert Differences(s, t, f + 1) == Zeros(f) + [d] && d == (s[f] - t[f]) % B;
    hide Val, Pow, Differences, Difference, Borrow;
    ValOfShifted(f, [d]);
    OneDigit(d);
    ValSplit(s, f);
    ValSplit(t, f);
    PowPositive(B, f);
    OnlyBorrowed(Pow(B, f), s[f], t[f], d, Val(s[f + 1..]), Val(t[f + 1..]));
  }

  lemma ReusedMinuend(s: seq<Digit>, t: seq<Digit>)
    requires |t| <= |s| && Val(s) > Val(t)
    ensures Val(Outcome(s, t, Minuend)) == Val(s) - Val(t) <==> IsExact(s, t, Minuend)
  {
    hide Val, Differences, Turn, Padded, FirstUnequal;
    OneDigitDifference(s, Padded(t, |s|), Turn(s, t));
    PaddedValue(t, |s|);
  }

  lemma PaddedValue(t: seq<Digit>, n: nat)
    requires |t| <= n
    ensures Val(Padded(t, n)) == Val(t)
  {
    ZerosAppended(t, n - |t|);
  }

  lemma OnlyBorrowed(w: nat, x: Digit, y: Digit, d: Digit, u: nat, v: nat)
    requires w > 0 && x != y && d == (x - y) % B
    ensures w * d == w * (x + B * u) - w * (y + B * v) <==> u == v + if x < y then 1 else 0
  {
    assert d == x - y + if x < y then B else 0;
    assert w * (x + B * u) - w * (y + B * v) == w * (x - y + B * (u - v));
    Cancel(w, d, x - y + B * (u - v));
  }

  lemma Cancel(w: int, a: int, b: int)
    requires w > 0
    ensures w * a == w * b <==> a == b
  {
    assert w * a - w * b == w * (a - b);
  }

  /** What is subtracted is cut off above that digit, and then no borrow is lost. */
  lemma ReusedSubtrahend(s: seq<Digit>, t: seq<Digit>)
    requires |t| <= |s| && Val(s) > Val(t) && Normal(t)
    ensures Val(Outcome(s, t, Subtrahend)) == Val(s) - Val(t) <==> IsExact(s, t, Subtrahend)
  {
    var f := Turn(s, t);
    var n := if f + 1 < |t| then f + 1 else |t|;
    assert t[..|t|] == t;
    hide Val, Turn, Differences, NoBorrowMeetsOnes, Padded;
    if n < |t| { CutIsSmaller(t, n); }
    NothingLost(s, t, f, n);
    DifferenceIsExactIff(s, t[..n]);
  }

  lemma CutIsSmaller(t: seq<Digit>, n: nat)
    requires Normal(t) && 0 < n < |t|
    ensures Val(t[..n]) < Val(t)
  {
    ValBelow(t[..n]);
    ValAbove(t);
    PowMonotone(B, n, |t| - 1);
  }

  lemma NothingLost(s: seq<Digit>, t: seq<Digit>, f: nat, n: nat)
    requires |t| <= |s| && f < |s| && s[..f] == Padded(t, |s|)[..f] && n <= |t| && n <= f + 1
    ensures NoBorrowMeetsOnes(s, t[..n])
  {
    hide Val;
    forall i | 0 <= i < n ensures t[..n][..i] == s[..i] {
      assert t[..n][..i] == Padded(t, |s|)[..f][..i] == s[..f][..i] == s[..i];
    }
  }

  /** For each place of the result, exactly when it is the difference. */
  lemma OutcomeIsExactIff(s: seq<Digit>, t: seq<Digit>, reuse: Reuse)
    requires |t| <= |s| && Val(s) > Val(t) && Normal(t)
    ensures Val(Outcome(s, t, reuse)) == Val(s) - Val(t) <==> IsExact(s, t, reuse)
  {
    hide Val;
    match reuse
    case Neither => DifferenceIsExactIff(s, t);
    case Minuend => ReusedMinuend(s, t);
    case Subtrahend => ReusedSubtrahend(s, t);
  }

  /** B + 2 less 1 is 1 if the result is the minuend; B^2 less B + 1 is too large by B if it is the
      subtrahend. */
  lemma OperandReused()
    ensures var s: seq<Digit>, t: seq<Digit> := [2, 1], [1];
            Val(s) > Val(t) && !IsExact(s, t, Minuend) && IsExact(s, t, Neither)
    ensures var s: seq<Digit>, t: seq<Digit> := [0, 0, 1], [1, 1];
            Val(s) > Val(t) && !IsExact(s, t, Subtrahend) && IsExact(s, t, Neither)
  {
  }

  // ----- Moving whole digits up -----

  /** What moving the top digit, and what lies above it, up by `offset` digits leaves. */
  function TopMoved(all: seq<Digit>, count: nat, offset: nat): (r: seq<Digit>)
    requires 1 <= count && offset + count - 1 <= |all| && count <= |all|
    ensures |r| == offset + count
  {
    Zeros(offset) + all[offset..offset + count - 1] + [all[count - 1]]
  }

  lemma TopMovedAt(all: seq<Digit>, count: nat, offset: nat, r: seq<Digit>)
    requires 1 <= count && offset + count - 1 <= |all| && count <= |all| && |r| == offset + count
    requires forall k :: 0 <= k < offset ==> r[k] == 0
    requires forall k :: offset <= k < offset + count - 1 ==> r[k] == all[k]
    requires r[offset + count - 1] == all[count - 1]
    ensures r == TopMoved(all, count, offset)
  {
  }

  /** That is the shifted number exactly if the digits that stayed happen to be those that should
      have moved there. */
  lemma TopMovedIsExactIff(all: seq<Digit>, count: nat, offset: nat)
    requires 1 <= count && offset + count - 1 <= |all| && count <= |all|
    ensures Val(TopMoved(all, count, offset)) == Pow(B, offset) * Val(all[..count]) <==>
            forall k :: 0 <= k < count - 1 ==> all[offset + k] == all[k]
  {
    var s, moved := all[..count], TopMoved(all, count, offset);
    ValOfShifted(offset, s);
    if Val(moved) == Val(Zeros(offset) + s) {
      ValIsInjective(moved, Zeros(offset) + s);
      forall k | 0 <= k < count - 1 ensures all[offset + k] == all[k] {
        assert moved[offset + k] == all[offset + k] && (Zeros(offset) + s)[offset + k] == all[k];
      }
    }
    if forall k :: 0 <= k < count - 1 ==> all[offset + k] == all[k] {
      assert moved == Zeros(offset) + s;
    }
  }

  /** Two digits moved up by one: the lower one is not what it was. */
  lemma DigitLost()
    ensures var all: seq<Digit> := [1, 2, 0]; Val(TopMoved(all, 2, 1)) != Pow(B, 1) * Val(all[..2])
  {
    TopMovedIsExactIff([1, 2, 0], 2, 1);
  }
}
