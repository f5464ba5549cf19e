/** The big integer of the JSON reader: a fixed array of 64-bit digits and a count
    (thirdparty/rapidjson/internal/biginteger.h:28-248). */
module BigInteger {
  import opened BigNumbers
  import opened BigSubtraction
  import opened Expressions

  const CAPACITY: nat := 3328 / 8

  class BigInteger {
    const digits: array<Digit>
    var count: nat

    ghost predicate Valid()
      reads this, digits
    {
      digits.Length == CAPACITY && 1 <= count <= CAPACITY && Normal(digits[..count])
    }

    ghost function Value(): nat
      reads this, digits
      requires count <= digits.Length
    {
      Val(digits[..count])
    }

    constructor ()
      ensures Valid() && Value() == 0 && fresh(digits) && count == 1
    {
      digits := new Digit[CAPACITY](_ => 0);
      count := 1;
      new;
      assert digits[..1] == [0];
      OneDigit(0);
    }

    method Set(u: Digit)
      requires Valid()
      modifies this, digits
      ensures Valid() && Value() == u && count == 1
    {
      digits[0] := u;
      count := 1;
      assert digits[..1] == [u];
      OneDigit(u);
    }

    method PushBack(digit: Digit)
      requires digits.Length == CAPACITY && count < CAPACITY
      modifies this, digits
      ensures digits.Length == CAPACITY && count == old(count) + 1
      ensures digits[..count] == old(digits[..count]) + [digit]
      ensures Value() == old(Value()) + Place(old(count), digit)
    {
      digits[count] := digit;
      count := count + 1;
      assert digits[..count] == old(digits[..count]) + [digit];
      ValSnoc(old(digits[..count]), digit);
    }

    predicate IsZero()
      reads this, digits
      requires Valid()
    {
      count == 1 && digits[0] == 0
    }

    predicate IsOne()
      reads this, digits
      requires Valid()
    {
      count == 1 && digits[0] == 1
    }

    lemma SmallValues()
      requires Valid()
      ensures IsZero() <==> Value() == 0
      ensures IsOne() <==> Value() == 1
    {
      if count == 1 {
        assert digits[..1] == [digits[0]];
        OneDigit(digits[0]);
      } else {
        ValAbove(digits[..count]);
        PowMonotone(B, 1, count - 1);
        assert Pow(B, 1) == B * Pow(B, 0);
      }
    }

    /** The number so far, with a carry out of digit `i` if that digit wrapped around. */
    ghost predicate Adding(goal: nat, i: nat, backup: Digit)
      reads this, digits
    {
      && digits.Length == CAPACITY && i < count <= CAPACITY
      && Val(digits[..count]) + Pow(B, i) * (if digits[i] < backup then B else 0) == goal
    }

    /** Adds a word; a carry travels up and may add a digit. */
    method Add(u: Digit)
      requires Valid() && Value() + u < Pow(B, CAPACITY)
      modifies this, digits
      ensures Valid() && Value() == old(Value()) + u
    {
      hide Val, Pow, Adding;
      ghost var goal := Value() + u;
      var backup := AddFirst(u);
      var i;
      i, backup := Propagate(goal, backup);
      if i == count - 1 && digits[i] < backup {
        LastCarry(goal, backup);
        PushBack(1);
      } else {
        NoCarry(goal, i, backup);
      }
    }

    /** Carries up to the first digit that does not wrap around, or to the last one. */
    method Propagate(ghost goal: nat, first: Digit) returns (i: nat, backup: Digit)
      requires Adding(goal, 0, first)
      requires count > 1 ==> digits[count - 1] != 0
      modifies digits
      ensures Adding(goal, i, backup) && (digits[i] >= backup || i == count - 1)
      ensures digits[i] >= backup && count > 1 ==> digits[count - 1] != 0
    {
      hide Val, Pow;
      i, backup := 0, first;
      while i < count - 1
        invariant Adding(goal, i, backup)
        invariant count > 1 && (i < count - 1 || digits[i] >= backup) ==> digits[count - 1] != 0
      {
        if digits[i] >= backup {
          return;
        }
        backup := Carry(i, backup, goal);
        i := i + 1;
      }
    }

    lemma NoCarry(goal: nat, i: nat, backup: Digit)
      requires Adding(goal, i, backup) && digits[i] >= backup
      ensures Value() == goal
    {
    }

    lemma LastCarry(goal: nat, backup: Digit)
      requires count >= 1 && Adding(goal, count - 1, backup) && digits[count - 1] < backup && goal < Pow(B, CAPACITY)
      ensures count < CAPACITY && Value() + Place(count, 1) == goal
    {
      assert Pow(B, count) == B * Pow(B, count - 1);
      if count >= CAPACITY { PowMonotone(B, CAPACITY, count); }
    }

    method AddFirst(u: Digit) returns (backup: Digit)
      requires Valid()
      modifies digits
      ensures Adding(old(Value()) + u, 0, backup)
      ensures count > 1 ==> digits[count - 1] == old(digits[count - 1])
    {
      hide Val;
      ghost var s := digits[..count];
      backup := digits[0];
      digits[0] := (digits[0] + u) % B;
      assert digits[..count] == s[0 := digits[0]];
      ValUpdate(s, 0, digits[0]);
      assert Pow(B, 0) == 1;
    }

    method Carry(i: nat, backup: Digit, ghost goal: nat) returns (next: Digit)
      requires i + 1 < count && Adding(goal, i, backup) && digits[i] < backup
      modifies digits
      ensures Adding(goal, i + 1, next)
      ensures i + 1 < count - 1 ==> digits[count - 1] == old(digits[count - 1])
      ensures next == old(digits[i + 1]) && (digits[i + 1] >= next ==> digits[i + 1] != 0)
    {
      hide Val;
      ghost var s := digits[..count];
      next := digits[i + 1];
      digits[i + 1] := (digits[i + 1] + 1) % B;
      assert digits[..count] == s[i + 1 := digits[i + 1]];
      ValUpdate(s, i + 1, digits[i + 1]);
      CarryStep(Pow(B, i), next, digits[i + 1]);
      assert Pow(B, i + 1) == B * Pow(B, i);
      hide Pow;
    }

    // ----- Multiplication -----

    method PutProduct(ghost s: seq<Digit>, ghost u: nat, i: nat, ghost k: Digit, lo: Digit, hi: Digit)
      requires digits.Length == CAPACITY && i < count <= CAPACITY && Multiplying(digits[..count], s, u, i, k)
      requires u > 0 && lo + B * hi == digits[i] * u + k
      modifies digits
      ensures Multiplying(digits[..count], s, u, i + 1, hi)
    {
      assert |s| == count;
      hide Multiplying;
      ProductStep(digits[..count], s, u, i, k, lo, hi);
      ghost var now := digits[..count];
      digits[i] := lo;
      assert digits[..count] == now[i := lo];
    }

    /** A carry left over becomes a digit. */
    method FinishProduct(ghost s: seq<Digit>, ghost u: nat, k: Digit)
      requires digits.Length == CAPACITY && count <= CAPACITY && Multiplying(digits[..count], s, u, |s|, k)
      requires Normal(s) && u > 0 && u * Val(s) < Pow(B, CAPACITY)
      modifies this, digits
      ensures Valid() && Value() == u * Val(s)
    {
      hide Val, Pow, Multiplying, Place;
      ProductDone(digits[..count], s, u, k);
      if k > 0 {
        PushBack(k);
      }
    }

    /** Multiplies by a word. */
    method Multiply(u: Digit)
      requires Valid() && u * Value() < Pow(B, CAPACITY)
      modifies this, digits
      ensures Valid() && Value() == u * old(Value())
    {
      hide Val, Pow, Multiplying;
      SmallValues();
      if u == 0 {
        Set(0);
        return;
      }
      if u == 1 { return; }
      if IsOne() {
        Set(u);
        return;
      }
      ghost var s := digits[..count];
      StartProduct(s, u);
      var k: Digit := 0;
      var i := 0;
      while i < count
        invariant digits.Length == CAPACITY && i <= count == |s| <= CAPACITY && Multiplying(digits[..count], s, u, i, k)
      {
        ghost var k0 := k;
        var lo, hi := MulAdd64(digits[i], u, k);
        PutProduct(s, u, i, k0, lo, hi);
        k := hi;
        i := i + 1;
      }
      FinishProduct(s, u, k);
    }

    /** Multiplies by half a word, with 32-bit parts. */
    method MultiplySmall(u: Half)
      requires Valid() && u * Value() < Pow(B, CAPACITY)
      modifies this, digits
      ensures Valid() && Value() == u * old(Value())
    {
      hide Val, Pow, Multiplying;
      SmallValues();
      if u == 0 {
        Set(0);
        return;
      }
      if u == 1 { return; }
      if IsOne() {
        Set(u);
        return;
      }
      ghost var s := digits[..count];
      StartProduct(s, u);
      var k: Half := 0;
      var i := 0;
      while i < count
        invariant digits.Length == CAPACITY && i <= count == |s| <= CAPACITY && Multiplying(digits[..count], s, u, i, k)
      {
        ghost var k0 := k;
        var lo, hi := MulAddSmall(digits[i], u, k);
        PutProduct(s, u, i, k0, lo, hi);
        k := hi;
        i := i + 1;
      }
      FinishProduct(s, u, k);
    }

    // ----- Shifting -----

    /** Shifting is right, except for a multiple of the digit size and more than one digit: then only
        the top digit is moved, with what lies above it in the array. */
    ghost predicate ShiftIsExact(shift: nat)
      reads this, digits
      requires Valid() && ShiftFits(shift)
    {
      IsZero() || shift == 0 || shift % 64 != 0
      || forall k :: 0 <= k < count - 1 ==> digits[shift / 64 + k] == digits[k]
    }

    /** The shift does nothing, or all its accesses are inside the array. */
    predicate ShiftFits(shift: nat)
      reads this, digits
      requires Valid()
    {
      IsZero() || shift == 0 || ShiftStaysInside(count, shift)
    }

    /** Shifts by a number of bits. */
    method ShiftLeft(shift: nat)
      requires Valid() && ShiftFits(shift)
      modifies this, digits
      ensures Valid()
      ensures Value() == old(Value()) * Pow(2, shift) <==> old(ShiftIsExact(shift))
    {
      hide Val, Pow;
      SmallValues();
      PowZero(2);
      if IsZero() || shift == 0 { return; }
      if shift % 64 == 0 {
        ShiftDigits(shift / 64);
        PowOfDigits(shift / 64);
      } else {
        ShiftWords(shift);
      }
    }

    method ShiftDigits(offset: nat)
      requires Valid() && !IsZero() && 0 < offset && 2 * count - 1 + offset <= CAPACITY
      modifies this, digits
      ensures Valid()
      ensures Value() == old(Value()) * Pow(B, offset) <==>
              old(forall k :: 0 <= k < count - 1 ==> digits[offset + k] == digits[k])
    {
      hide Val, Pow, TopMoved, Normal, Zeros;
      ghost var all := digits[..];
      assert all[..count] == digits[..count];
      TopMovedIsExactIff(all, count, offset);
      MoveTop(offset);
    }

    /** Moves as many digits as the number has, but from its top digit on; they may overlap. */
    method MoveTop(offset: nat)
      requires Valid() && !IsZero() && 0 < offset && 2 * count - 1 + offset <= CAPACITY
      modifies this, digits
      ensures Valid() && digits[..count] == TopMoved(old(digits[..]), old(count), offset)
    {
      hide Val, Pow, Zeros, TopMoved;
      ghost var all := digits[..];
      assert digits[..count][count - 1] == all[count - 1] != 0;
      MoveFrom(count - 1, offset);
      ZeroDigits(offset);
      count := count + offset;
      TopMovedAt(all, old(count), offset, digits[..count]);
    }

    method MoveFrom(bottom: nat, offset: nat)
      requires count == bottom + 1 && bottom + count + offset <= digits.Length
      modifies digits
      ensures forall k :: 0 <= k < bottom + offset ==> digits[k] == old(digits[k])
      ensures digits[bottom + offset] == old(digits[bottom])
    {
      forall k | bottom <= k < bottom + count {
        digits[k + offset] := digits[k];
      }
    }

    method ShiftWords(shift: nat)
      requires Valid() && !IsZero() && shift % 64 != 0 && count + shift / 64 < CAPACITY
      modifies this, digits
      ensures Valid() && Value() == old(Value()) * Pow(2, shift)
    {
      hide Val, Pow, Shifted;
      var offset, p, q := shift / 64, Pow(2, shift % 64), Pow(2, 64 - shift % 64);
      WordIsSplit(shift % 64);
      ghost var s := digits[..count];
      assert s[|s| - 1] != 0;
      ShiftedTotal(s, shift, p, q);
      ShiftedTop(s, p, q);
      MoveWords(offset, p, q);
      Trim(offset, Shifted(s, p, q));
    }

    /** Moves the digits up, in place, from the top down. */
    method MoveWords(offset: nat, p: nat, q: nat)
      requires digits.Length == CAPACITY && 1 <= count && count + offset < CAPACITY
      requires SplitsDigits(p, q)
      modifies digits
      ensures digits[..offset + count + 1] == Zeros(offset) + Shifted(old(digits[..count]), p, q)
    {
      hide Lower, Spill, Shifted;
      ghost var s := digits[..count];
      digits[count] := 0;
      var i := count;
      while i > 0
        invariant 0 <= i <= count
        invariant forall k: nat :: k <= i ==> digits[k] == DigitAt(s, k)
        invariant forall k: nat :: offset + i < k <= offset + count ==> digits[k] == Shifted(s, p, q)[k - offset]
      {
        MoveWord(s, i, offset, p, q);
        i := i - 1;
      }
      FirstWord(s, p, q);
      digits[offset] := (digits[0] * p) % B;
      ZeroDigits(offset);
      assert forall k: nat :: offset <= k <= offset + count ==> digits[k] == Shifted(s, p, q)[k - offset];
    }

    method MoveWord(ghost s: seq<Digit>, i: nat, offset: nat, p: nat, q: nat)
      requires 0 < i <= |s| && i + offset < digits.Length && SplitsDigits(p, q)
      requires digits[i] == DigitAt(s, i) && digits[i - 1] == DigitAt(s, i - 1)
      modifies digits
      ensures digits[i + offset] == Shifted(s, p, q)[i]
      ensures forall k :: 0 <= k < digits.Length && k != i + offset ==> digits[k] == old(digits[k])
    {
      WordFits(s, i, p, q);
      digits[i + offset] := (digits[i] * p) % B + digits[i - 1] / q;
    }

    lemma FirstWord(s: seq<Digit>, p: nat, q: nat)
      requires SplitsDigits(p, q)
      ensures (DigitAt(s, 0) * p) % B == Shifted(s, p, q)[0]
    {
      WordFits(s, 0, p, q);
    }

    method ZeroDigits(offset: nat)
      requires offset <= digits.Length
      modifies digits
      ensures forall k :: 0 <= k < offset ==> digits[k] == 0
      ensures forall k :: offset <= k < digits.Length ==> digits[k] == old(digits[k])
    {
      for k := 0 to offset
        invariant forall i :: 0 <= i < k ==> digits[i] == 0
        invariant forall i :: k <= i < digits.Length ==> digits[i] == old(digits[i])
      {
        digits[k] := 0;
      }
    }

    /** Drops the top digit if it is zero. */
    method Trim(offset: nat, ghost words: seq<Digit>)
      requires digits.Length == CAPACITY && |words| == count + 1 && 1 <= count && count + offset < CAPACITY
      requires digits[..offset + count + 1] == Zeros(offset) + words
      requires words[count] == 0 ==> words[count - 1] != 0
      modifies this
      ensures Valid() && Value() == Val(Zeros(offset) + words)
    {
      ghost var all := digits[..offset + count + 1];
      count := count + offset;
      assert digits[count] == all[count] == words[|words| - 1];
      if digits[count] != 0 {
        count := count + 1;
      } else {
        ValDropZero(all);
        assert all[..count] == digits[..count];
        assert digits[count - 1] == all[count - 1] == words[|words| - 2];
      }
    }

    // ----- Decimal numbers -----

    /** Multiplies by a power of five, by the largest factors that fit a word. */
    method MultiplyPow5(exp: nat)
      requires Valid() && Value() * Pow(5, exp) < Pow(B, CAPACITY)
      modifies this, digits
      ensures Valid() && Value() == old(Value()) * Pow(5, exp)
    {
      hide Val, Pow;
      PowZero(5);
      if exp == 0 { return; }
      ghost var goal := Value() * Pow(5, exp);
      var rest := exp;
      while rest >= 27
        invariant Valid() && Value() * Pow(5, rest) == goal
      {
        MultiplyBy27(rest, goal);
        rest := rest - 27;
      }
      while rest >= 13
        invariant rest < 27 && Valid() && Value() * Pow(5, rest) == goal
      {
        MultiplyBy13(rest, goal);
        rest := rest - 13;
      }
      if rest > 0 {
        MultiplyByTable(rest);
      }
    }

    method MultiplyByTable(rest: nat)
      requires Valid() && 0 < rest < 13 && Value() * Pow(5, rest) < Pow(B, CAPACITY)
      modifies this, digits
      ensures Valid() && Value() == old(Value()) * Pow(5, rest)
    {
      hide Val, Pow;
      PowersOfFive();
      MultiplySmall(POW5[rest - 1]);
    }

    method MultiplyBy27(ghost rest: nat, ghost goal: nat)
      requires Valid() && rest >= 27 && Value() * Pow(5, rest) == goal < Pow(B, CAPACITY)
      modifies this, digits
      ensures Valid() && Value() * Pow(5, rest - 27) == goal
    {
      hide Val, Pow;
      SplitPower(Value(), 27, rest, goal);
      LargePowersOfFive();
      Multiply(0x6765_C793_FA10_079D);
    }

    method MultiplyBy13(ghost rest: nat, ghost goal: nat)
      requires Valid() && rest >= 13 && Value() * Pow(5, rest) == goal < Pow(B, CAPACITY)
      modifies this, digits
      ensures Valid() && Value() * Pow(5, rest - 13) == goal
    {
      hide Val, Pow;
      SplitPower(Value(), 13, rest, goal);
      LargePowersOfFive();
      MultiplySmall(1220703125);
    }

    /** Appends up to 19 decimal digits. */
    method AppendDecimal64(chunk: string)
      requires Valid() && 0 < |chunk| <= 19 && forall k :: 0 <= k < |chunk| ==> IsDigit(chunk[k])
      requires Value() * Pow(5, |chunk|) < Pow(B, CAPACITY - 1)
      modifies this, digits
      ensures Valid() && Value() == old(Value()) * Pow(10, |chunk|) + DecimalValue(chunk)
    {
      hide Val, Pow, DecimalValue;
      SmallValues();
      var u := ParseUint64(chunk);
      if IsZero() {
        Set(u);
        return;
      }
      AppendFits(Value(), chunk);
      MultiplyPow5(|chunk|);
      DigitsBound(digits[..count], CAPACITY - 1);
      ShiftLeft(|chunk|);
      Add(u);
    }

    /** The number a string of decimal digits stands for, with no more digits than needed. */
    method SetDecimals(decimals: string)
      requires Valid() && 0 < |decimals| && forall k :: 0 <= k < |decimals| ==> IsDigit(decimals[k])
      requires DecimalsFit(decimals)
      modifies this, digits
      ensures Valid() && Value() == DecimalValue(decimals)
      ensures count <= (|decimals| + 18) / 19
    {
      hide Val, Pow, DecimalValue;
      Set(0);
      EmptyDecimal();
      assert decimals[..0] == [];
      var length: nat, i: nat := |decimals|, 0;
      while length >= 19
        invariant i + length == |decimals| && i % 19 == 0 && Valid() && Value() == DecimalValue(decimals[..i])
      {
        ChunkFits(decimals, i, 19);
        AppendDecimal64(decimals[i..i + 19]);
        length := length - 19;
        i := i + 19;
      }
      if length > 0 {
        ChunkFits(decimals, i, length);
        AppendDecimal64(decimals[i..i + length]);
      }
      assert decimals[..|decimals|] == decimals;
      DecimalDigits(digits[..count], decimals);
    }

    /** Equality of the digits is equality of the numbers. */
    method Equals(rhs: BigInteger) returns (equal: bool)
      requires Valid() && rhs.Valid()
      ensures equal <==> Value() == rhs.Value()
    {
      hide Val;
      ghost var s, t := digits[..count], rhs.digits[..rhs.count];
      if count != rhs.count {
        if count < rhs.count { ShorterIsSmaller(s, t); } else { ShorterIsSmaller(t, s); }
        return false;
      }
      equal := true;
      for i := 0 to count
        invariant equal <==> forall k :: 0 <= k < i ==> s[k] == t[k]
      {
        assert s[i] == digits[i] && t[i] == rhs.digits[i];
        if digits[i] != rhs.digits[i] {
          equal := false;
        }
      }
      if Value() == rhs.Value() { ValIsInjective(s, t); }
      if equal { assert s == t; }
    }

    /** No two of these numbers share their digits. */
    ghost predicate Apart(other: BigInteger) { this != other ==> digits != other.digits }

    ghost function ReuseOf(b: BigInteger, out: BigInteger): Reuse {
      if out == this then Minuend else if out == b then Subtrahend else Neither
    }

    /** The absolute difference, digit by digit, and whether this number is the smaller one. The result,
        which may be one of the operands, is in normal form. */
    method Difference(rhs: BigInteger, out: BigInteger) returns (less: bool)
      requires Valid() && rhs.Valid() && Value() != rhs.Value()
      requires out.digits.Length == CAPACITY && Apart(rhs) && Apart(out) && rhs.Apart(out)
      modifies out, out.digits
      ensures out.Valid()
      ensures less <==> old(Value()) < old(rhs.Value())
      ensures var a, b := if less then rhs else this, if less then this else rhs;
              var s, t := old(a.digits[..a.count]), old(b.digits[..b.count]);
              && |t| <= |s| && Val(s) > Val(t) && out.Value() == Val(Outcome(s, t, a.ReuseOf(b, out)))
              && (out.Value() == Val(s) - Val(t) <==> IsExact(s, t, a.ReuseOf(b, out)))
              && (out !in {a, b} ==> out.Value() >= Val(s) - Val(t))
    {
      hide Val, Differences, NoBorrowMeetsOnes, Outcome, IsExact;
      var cmp := Compare(rhs);
      less := cmp < 0;
      if less { rhs.SubtractInto(this, out); } else { SubtractInto(rhs, out); }
    }

    /** Subtracts the smaller number. */
    method SubtractInto(b: BigInteger, out: BigInteger)
      requires Valid() && b.Valid() && Value() > b.Value()
      requires out.digits.Length == CAPACITY && Apart(b) && Apart(out) && b.Apart(out)
      modifies out, out.digits
      ensures out.Valid()
      ensures var s, t := old(digits[..count]), old(b.digits[..b.count]);
              && |t| <= |s| && Val(s) > Val(t) && out.Value() == Val(Outcome(s, t, ReuseOf(b, out)))
              && (out.Value() == Val(s) - Val(t) <==> IsExact(s, t, ReuseOf(b, out)))
              && (out !in {this, b} ==> out.Value() >= Val(s) - Val(t))
    {
      ghost var s, t, reuse := digits[..count], b.digits[..b.count], ReuseOf(b, out);
      if count < b.count { ShorterIsSmaller(s, t); }
      NothingSubtracted(b, out, s, t);
      hide Val, Outcome, IsExact, Subtracting, Normal;
      var borrow: nat := 0;
      var i := 0;
      ghost var last: nat := 0;
      while i < count
        invariant Subtracting(b, out, s, t, i, borrow, last)
        decreases Computed(s, t, reuse) - i
      {
        borrow, last := SubtractDigit(b, out, s, t, i, borrow, last);
        i := i + 1;
      }
      AllSubtracted(b, out, s, t, i, borrow, last);
    }

    lemma NothingSubtracted(b: BigInteger, out: BigInteger, s: seq<Digit>, t: seq<Digit>)
      requires Valid() && b.Valid() && out.digits.Length == CAPACITY
      requires s == digits[..count] && t == b.digits[..b.count] && |t| <= |s| && Val(s) > Val(t)
      ensures Subtracting(b, out, s, t, 0, 0, 0)
    {
      hide Val, Borrow, Differences, Turn, Subtracted, IsTop;
      StartTop(s, Subtracted(s, t, ReuseOf(b, out)), Turn(s, t));
    }

    lemma AllSubtracted(b: BigInteger, out: BigInteger, s: seq<Digit>, t: seq<Digit>, i: nat, borrow: nat, last: nat)
      requires |t| <= |s| <= CAPACITY && Val(s) > Val(t) && Normal(t) && this != b
      requires Subtracting(b, out, s, t, i, borrow, last) && i >= count
      ensures out.Valid() && out.Value() == Val(Outcome(s, t, ReuseOf(b, out)))
      ensures out.Value() == Val(s) - Val(t) <==> IsExact(s, t, ReuseOf(b, out))
      ensures out !in {this, b} ==> out.Value() >= Val(s) - Val(t)
    {
      var reuse := ReuseOf(b, out);
      var p, n, f := Subtracted(s, t, reuse), Computed(s, t, reuse), Turn(s, t);
      TopIs(Differences(s, p, i), last, f);
      assert i == n && Outcome(s, t, reuse) == Differences(s, p, n);
      TopBound(Differences(s, p, n), last, f);
      LastCounted(s, t, reuse, out.digits[..n], last);
      hide Val, Borrow, Differences, Outcome, IsExact, Turn, Subtracted, IsTop;
      assert out.digits[..last] == out.digits[..n][..last];
    }

    /** The lower `i` digits have been computed; neither operand has changed above them, except that an
        operand that is the result has lost its digits once one was not zero. */
    ghost predicate Subtracting(b: BigInteger, out: BigInteger, s: seq<Digit>, t: seq<Digit>, i: nat, borrow: nat, last: nat)
      requires |t| <= |s| <= CAPACITY && Val(s) > Val(t)
      reads this, digits, b, b.digits, out, out.digits
    {
      var p, f := Subtracted(s, t, ReuseOf(b, out)), Turn(s, t);
      && digits.Length == b.digits.Length == out.digits.Length == CAPACITY
      && i <= Computed(s, t, ReuseOf(b, out)) <= CAPACITY
      && borrow == Borrow(s, p, i) && out.digits[..i] == Differences(s, p, i)
      && IsTop(Differences(s, p, i), last, f) && (last > 0 ==> out.count == last)
      && count == (if out == this && i > f then last else |s|)
      && b.count == (if out == b && i > f then last else |t|)
      && (forall k :: i <= k < |s| ==> digits[k] == s[k])
      && (forall k :: i <= k < |t| ==> b.digits[k] == t[k])
    }

    method SubtractDigit(
      b: BigInteger, out: BigInteger, ghost s: seq<Digit>, ghost t: seq<Digit>, i: nat, borrow: nat, ghost last: nat)
      returns (borrow': nat, ghost last': nat)
      requires |t| <= |s| <= CAPACITY && Val(s) > Val(t) && this != b && Apart(b) && Apart(out) && b.Apart(out)
      requires Subtracting(b, out, s, t, i, borrow, last) && i < count
      modifies out, out.digits
      ensures Subtracting(b, out, s, t, i + 1, borrow', last')
    {
      ghost var p, f := Subtracted(s, t, ReuseOf(b, out)), Turn(s, t);
      hide Val, Borrow, Differences, Turn, Subtracted, Padded, IsTop, Minus, Computed;
      NextDigits(b, out, s, t, i, borrow, last);
      var d := Minus(digits[i], borrow, if i < b.count then b.digits[i] else 0);
      NextTop(s, p, i, d, last, f);
      borrow', last' := if d > digits[i] then 1 else 0, if d != 0 then i + 1 else last;
      out.PutDigit(i, d);
    }

    /** The highest digit put that is not zero is the last one counted. */
    method PutDigit(i: nat, d: Digit)
      requires i < digits.Length
      modifies this, digits
      ensures count == if d != 0 then i + 1 else old(count)
      ensures digits[..i + 1] == old(digits[..i]) + [d]
      ensures forall k :: i < k < digits.Length ==> digits[k] == old(digits[k])
    {
      digits[i] := d;
      if d != 0 { count := i + 1; }
    }

    /** What the next digit is computed from. */
    lemma NextDigits(b: BigInteger, out: BigInteger, s: seq<Digit>, t: seq<Digit>, i: nat, borrow: nat, last: nat)
      requires |t| <= |s| <= CAPACITY && Val(s) > Val(t) && this != b && Apart(b) && Apart(out) && b.Apart(out)
      requires Subtracting(b, out, s, t, i, borrow, last) && i < count
      ensures var reuse := ReuseOf(b, out);
              var p, f := Subtracted(s, t, reuse), Turn(s, t);
              && i < Computed(s, t, reuse) && s[..f] == p[..f] && s[f] != p[f]
              && digits[i] == s[i] && p[i] == (if i < b.count then b.digits[i] else 0)
              && (last == 0 <==> i <= f) && (out == this ==> i <= f && Computed(s, t, reuse) == f + 1)
    {
      var reuse := ReuseOf(b, out);
      var p, f := Subtracted(s, t, reuse), Turn(s, t);
      SubtractedAt(s, t, reuse);
      TopIs(Differences(s, p, i), last, f);
      hide Val, Borrow, Differences, Turn, Subtracted, IsTop;
    }

    /** Compares two numbers by their digits; the sign is that of the difference of the values. */
    method Compare(rhs: BigInteger) returns (cmp: int)
      requires Valid() && rhs.Valid()
      ensures cmp < 0 <==> Value() < rhs.Value()
      ensures cmp > 0 <==> Value() > rhs.Value()
    {
      hide Val;
      ghost var s, t := digits[..count], rhs.digits[..rhs.count];
      if count != rhs.count {
        if count < rhs.count {
          ShorterIsSmaller(s, t);
          return -1;
        } else {
          ShorterIsSmaller(t, s);
          return 1;
        }
      }
      var i := count;
      while i > 0
        invariant 0 <= i <= count
        invariant forall k :: i <= k < count ==> s[k] == t[k]
      {
        i := i - 1;
        if digits[i] != rhs.digits[i] {
          assert s[i] == digits[i] && t[i] == rhs.digits[i];
          if digits[i] < rhs.digits[i] {
            LeadingDecides(s, t, i);
            return -1;
          } else {
            LeadingDecides(t, s, i);
            return 1;
          }
        }
      }
      assert s == t;
      return 0;
    }
  }

  function Minus(x: Digit, borrow: nat, y: Digit): Digit { (x - borrow - y) % B }

  /** `last` is one more than the index of the highest digit that is not zero, or 0 up to digit `f`. */
  ghost predicate IsTop(d: seq<Digit>, last: nat, f: nat) {
    && last <= |d| && (last == 0 <==> |d| <= f)
    && (last > 0 ==> d[last - 1] != 0)
    && forall k :: last <= k < |d| ==> d[k] == 0
  }

  lemma TopBound(d: seq<Digit>, last: nat, f: nat)
    requires IsTop(d, last, f) && |d| > f
    ensures 0 < last <= |d| && d[last - 1] != 0 && forall k :: last <= k < |d| ==> d[k] == 0
  {
  }

  lemma TopIs(d: seq<Digit>, last: nat, f: nat)
    requires IsTop(d, last, f)
    ensures last <= |d| && (last == 0 <==> |d| <= f)
  {
  }

  lemma StartTop(s: seq<Digit>, t: seq<Digit>, f: nat)
    requires |s| == |t|
    ensures Borrow(s, t, 0) == 0 && Differences(s, t, 0) == [] && IsTop([], 0, f)
  {
  }

  lemma NextTop(s: seq<Digit>, t: seq<Digit>, i: nat, d: Digit, last: nat, f: nat)
    requires i < |s| == |t| && d == Minus(s[i], Borrow(s, t, i), t[i])
    requires f < |s| && s[..f] == t[..f] && s[f] != t[f] && IsTop(Differences(s, t, i), last, f)
    ensures Differences(s, t, i + 1) == Differences(s, t, i) + [d]
    ensures Borrow(s, t, i + 1) == if d > s[i] then 1 else 0
    ensures IsTop(Differences(s, t, i + 1), if d != 0 then i + 1 else last, f)
    ensures i <= f ==> (d == 0 <==> i < f)
  {
    if i <= f { NothingBelow(s, t, f, i); }
  }

  /** The indices a shift by a positive number of bits reads or writes: the words that are moved and
      where they go, or every digit, the one below it and where they are joined; and the zeros. */
  predicate Touches(count: nat, shift: nat, i: nat)
    requires count >= 1 && shift > 0
  {
    var offset := shift / 64;
    || i < offset
    || if shift % 64 == 0 then count - 1 <= i < 2 * count - 1 || count - 1 + offset <= i < 2 * count - 1 + offset
       else i <= count || offset <= i <= count + offset
  }

  predicate ShiftStaysInside(count: nat, shift: nat) {
    if shift % 64 == 0 then 2 * count - 1 + shift / 64 <= CAPACITY else count + shift / 64 < CAPACITY
  }

  /** What the assertion of the shift leaves open: whether all accesses are inside the array. */
  lemma ShiftStaysInsideIff(count: nat, shift: nat)
    requires count >= 1 && shift > 0 && count + shift / 64 <= CAPACITY
    ensures (forall i: nat :: Touches(count, shift, i) ==> i < CAPACITY) <==> ShiftStaysInside(count, shift)
  {
    var last := if shift % 64 == 0 then 2 * count - 2 + shift / 64 else count + shift / 64;
    assert Touches(count, shift, last);
  }

  /** Shifts that meet the assertion, one by whole digits and one by a bit, and leave the array: by
      414 digits and by one. */
  lemma ShiftOverruns()
    ensures 415 + 64 / 64 <= CAPACITY && Touches(415, 64, CAPACITY + 413)
    ensures CAPACITY + 1 / 64 <= CAPACITY && Touches(CAPACITY, 1, CAPACITY)
  {
  }

  /** What is subtracted at each digit; up to the first that differs, the digits of the subtrahend. */
  lemma SubtractedAt(s: seq<Digit>, t: seq<Digit>, reuse: Reuse)
    requires |t| <= |s| && Val(s) > Val(t)
    ensures var p, f := Subtracted(s, t, reuse), Turn(s, t);
            && s[..f] == p[..f] && s[f] != p[f]
            && forall i :: 0 <= i < |s| ==> p[i] == if i < |t| && (reuse == Subtrahend ==> i <= f) then t[i] else 0
  {
    hide Turn, Val;
  }

  /** The digits computed, without the zeros in front. */
  lemma LastCounted(s: seq<Digit>, t: seq<Digit>, reuse: Reuse, d: seq<Digit>, last: nat)
    requires |t| <= |s| && Val(s) > Val(t) && Normal(t) && d == Outcome(s, t, reuse)
    requires last <= |d| && forall k :: last <= k < |d| ==> d[k] == 0
    ensures Val(d[..last]) == Val(Outcome(s, t, reuse))
    ensures Val(d[..last]) == Val(s) - Val(t) <==> IsExact(s, t, reuse)
    ensures reuse == Neither ==> Val(d[..last]) >= Val(s) - Val(t)
  {
    OutcomeIsExactIff(s, t, reuse);
    if reuse == Neither { DifferenceIsExactIff(s, t); }
    hide Val, IsExact;
    LeadingZeros(d, last);
  }

  /** Incrementing one digit moves the carry one place up. */
  lemma CarryStep(p: nat, before: Digit, after: Digit)
    requires after == (before + 1) % B
    ensures (B * p) * after + (B * p) * (if after < before then B else 0) == (B * p) * before + p * B
  {
    if before == B - 1 {
      assert (B * p) * B == (B * p) * (B - 1) + (B * p) * 1;
    } else {
      assert (B * p) * (before + 1) == (B * p) * before + (B * p) * 1;
    }
  }

  /** The lower `i` digits of `s` are multiplied, with `k` to carry over. */
  ghost predicate Multiplying(now: seq<Digit>, s: seq<Digit>, u: nat, i: nat, k: Digit) {
    && i <= |s| == |now|
    && now[i..] == s[i..]
    && Val(now[..i]) + Place(i, k) == u * Val(s[..i])
    && (i > 0 && s[i - 1] != 0 && k == 0 ==> now[i - 1] != 0)
  }

  lemma StartProduct(s: seq<Digit>, u: nat)
    ensures Multiplying(s, s, u, 0, 0)
  {
    assert s[..0] == [];
  }

  lemma ProductStep(now: seq<Digit>, s: seq<Digit>, u: nat, i: nat, k: Digit, lo: Digit, hi: Digit)
    requires Multiplying(now, s, u, i, k) && i < |s| && u > 0 && lo + B * hi == now[i] * u + k
    ensures Multiplying(now[i := lo], s, u, i + 1, hi)
  {
    var x, now' := s[i], now[i := lo];
    assert now[i] == now[i..][0] == x;
    assert now'[i + 1..] == now[i..][1..] && now'[..i] == now[..i];
    ValPrefix(now', i);
    ValPrefix(s, i);
    MulStep(Val(now[..i]), Val(s[..i]), i, k, u, x, lo, hi);
    if x != 0 { MulPositive(x, u); }
    hide Val, Place;
  }

  lemma ProductDone(now: seq<Digit>, s: seq<Digit>, u: nat, k: Digit)
    requires Multiplying(now, s, u, |s|, k) && Normal(s) && u > 0 && u * Val(s) < Pow(B, CAPACITY)
    ensures |now| == |s| && Val(now) + Place(|now|, k) == u * Val(s)
    ensures if k > 0 then |now| < CAPACITY else Normal(now) && Val(now) == u * Val(s)
  {
    assert s[..|s|] == s && now[..|s|] == now;
    var total := u * Val(s);
    assert Val(now) + Place(|now|, k) == total < Pow(B, CAPACITY);
    hide Val, Pow, Place;
    if k > 0 { ProductFits(Val(now), |now|, k, total); } else { PlaceZero(|now|); }
  }

  lemma PlaceZero(n: nat)
    ensures Place(n, 0) == 0
  {
  }

  lemma MulStep(now: nat, was: nat, i: nat, k: nat, u: nat, x: nat, lo: nat, hi: nat)
    requires now + Place(i, k) == u * was && lo + B * hi == x * u + k
    ensures (now + Place(i, lo)) + Place(i + 1, hi) == u * (was + Place(i, x))
  {
    var p := Pow(B, i);
    assert p * (lo + B * hi) == p * lo + (B * p) * hi;
    assert p * (x * u + k) == u * (p * x) + p * k;
  }

  lemma ProductFits(v: nat, count: nat, k: Digit, total: nat)
    requires k > 0 && v + Place(count, k) == total < Pow(B, CAPACITY)
    ensures count < CAPACITY
  {
    MulMono(1, k, Pow(B, count));
    if count >= CAPACITY { PowMonotone(B, CAPACITY, count); }
  }

  method MulAddSmall(d: Digit, u: Half, k: Half) returns (lo: Digit, hi: Half)
    ensures lo + B * hi == d * u + k
  {
    var c, e := d / HALF, d % HALF;
    var uc, ud := u * c, u * e;
    PartsAreSmall(u, c);
    PartsAreSmall(u, e);
    assert d * u == HALF * uc + ud by { SplitProduct(u, c, e); }
    lo, hi := JoinSmall(uc, ud, k);
  }

  method JoinSmall(uc: nat, ud: nat, k: Half) returns (lo: Digit, hi: Half)
    requires uc <= PART_BOUND && ud <= PART_BOUND
    ensures lo + B * hi == HALF * uc + ud + k
  {
    var p0 := (ud + k) % B;
    assert p0 == ud + k;
    var p1 := (uc + p0 / HALF) % B;
    assert p1 == uc + p0 / HALF;
    lo := p0 % HALF + ShiftedByHalf(p1);
    hi := p1 / HALF;
  }

  lemma SplitProduct(u: nat, c: nat, e: nat)
    ensures (HALF * c + e) * u == HALF * (u * c) + u * e
  {
  }

  // ----- Words of a shifted number -----

  function DigitAt(s: seq<Digit>, k: nat): Digit {
    if k < |s| then s[k] else 0
  }

  /** A shift that is not a multiple of the digit size, split in two. */
  predicate SplitsDigits(p: nat, q: nat) { p > 0 && q > 0 && p * q == B }

  /** The lower part of a digit, moved up. */
  function Lower(s: seq<Digit>, k: nat, p: nat, q: nat): nat
    requires SplitsDigits(p, q)
  {
    (DigitAt(s, k) % q) * p
  }

  /** The upper part of the digit below. */
  function Spill(s: seq<Digit>, k: nat, p: nat, q: nat): nat
    requires SplitsDigits(p, q)
  {
    if k > 0 then DigitAt(s, k - 1) / q else 0
  }

  lemma WordFits(s: seq<Digit>, k: nat, p: nat, q: nat)
    requires SplitsDigits(p, q)
    ensures Lower(s, k, p, q) + Spill(s, k, p, q) < B
    ensures (DigitAt(s, k) * p) % B == Lower(s, k, p, q)
  {
    var x, y := DigitAt(s, k), if k > 0 then DigitAt(s, k - 1) else 0;
    LowerIs(x, p, q);
    UpperFits(x, y, p, q);
    hide SplitsDigits;
  }

  lemma LowerIs(x: Digit, p: nat, q: nat)
    requires SplitsDigits(p, q)
    ensures (x * p) % B == (x % q) * p && (x % q) * p + p <= B
  {
    SplitDigit(x, q);
    MulMono(x % q + 1, q, p);
    Distribute(x / q, q, x % q, p);
    RemainderOf(x / q, (x % q) * p);
  }

  lemma UpperFits(x: Digit, y: Digit, p: nat, q: nat)
    requires SplitsDigits(p, q)
    ensures y / q < p
  {
    SplitDigit(y, q);
    if y / q >= p { MulMono(p, y / q, q); }
  }

  lemma SplitDigit(x: nat, q: nat)
    requires q > 0
    ensures x == (x / q) * q + x % q && x % q < q
  {
  }

  lemma Distribute(a: nat, q: nat, r: nat, p: nat)
    ensures (a * q + r) * p == (p * q) * a + r * p
  {
    assert (a * q) * p == (p * q) * a;
  }

  lemma RemainderOf(a: nat, r: nat)
    requires r < B
    ensures (B * a + r) % B == r
  {
  }

  function Shifted(s: seq<Digit>, p: nat, q: nat): (r: seq<Digit>)
    requires SplitsDigits(p, q)
    ensures |r| == |s| + 1
    ensures forall k :: 0 <= k < |r| ==> r[k] == Lower(s, k, p, q) + Spill(s, k, p, q)
  {
    seq(|s| + 1, k requires 0 <= k => ShiftedDigit(s, k, p, q))
  }

  function ShiftedDigit(s: seq<Digit>, k: nat, p: nat, q: nat): (r: Digit)
    requires SplitsDigits(p, q)
    ensures r == Lower(s, k, p, q) + Spill(s, k, p, q)
  {
    WordFits(s, k, p, q);
    Lower(s, k, p, q) + Spill(s, k, p, q)
  }

  /** What the words below digit `n` still miss is the upper part of digit `n - 1`. */
  lemma {:induction false} ShiftedPrefix(s: seq<Digit>, p: nat, q: nat, n: nat)
    requires SplitsDigits(p, q) && n <= |s|
    ensures Val(Shifted(s, p, q)[..n]) + Place(n, Spill(s, n, p, q)) == p * Val(s[..n])
  {
    var r := Shifted(s, p, q);
    if n == 0 {
      assert r[..0] == [] && s[..0] == [] && Val([]) == 0;
    } else {
      hide Val, Pow, Place, Lower, Spill, SplitsDigits, Shifted;
      ShiftedPrefix(s, p, q, n - 1);
      ValPrefix(r, n - 1);
      ValPrefix(s, n - 1);
      ShiftStep(s, p, q, n - 1, Val(r[..n - 1]), Val(s[..n - 1]), Val(r[..n]), Val(s[..n]));
    }
  }

  lemma ShiftStep(s: seq<Digit>, p: nat, q: nat, i: nat, now: nat, was: nat, now': nat, was': nat)
    requires SplitsDigits(p, q) && i < |s|
    requires now + Place(i, Spill(s, i, p, q)) == p * was
    requires now' == now + Place(i, Lower(s, i, p, q) + Spill(s, i, p, q)) && was' == was + Place(i, s[i])
    ensures now' + Place(i + 1, Spill(s, i + 1, p, q)) == p * was'
  {
    var x := s[i];
    SplitDigit(x, q);
    Distribute(x / q, q, x % q, p);
    assert x * p == B * (x / q) + Lower(s, i, p, q);
    ShiftSum(Pow(B, i), Lower(s, i, p, q), Spill(s, i, p, q), x / q, x, p, now, was);
  }

  lemma ShiftSum(power: nat, lower: nat, carry: nat, high: nat, x: nat, p: nat, now: nat, was: nat)
    requires now + power * carry == p * was && x * p == B * high + lower
    ensures now + power * (lower + carry) + (B * power) * high == p * (was + power * x)
  {
    assert power * (lower + carry) == power * lower + power * carry;
    MovedUp(power, high, B);
    assert power * (x * p) == power * (B * high) + power * lower;
    assert p * (power * x) == power * (x * p);
    assert p * (was + power * x) == p * was + p * (power * x);
  }

  lemma MovedUp(power: nat, high: nat, b: nat)
    ensures (b * power) * high == power * (b * high)
  {
  }

  lemma ShiftedValue(s: seq<Digit>, p: nat, q: nat)
    requires SplitsDigits(p, q) && s != []
    ensures Val(Shifted(s, p, q)) == p * Val(s)
  {
    var r, n := Shifted(s, p, q), |s|;
    assert Lower(s, n, p, q) == 0;
    hide Val, Pow, Place, Lower, Spill, SplitsDigits, Shifted;
    ShiftedPrefix(s, p, q, n);
    ValPrefix(r, n);
    assert r[..n + 1] == r && s[..n] == s;
  }

  lemma ShiftedTotal(s: seq<Digit>, shift: nat, p: nat, q: nat)
    requires p == Pow(2, shift % 64) && SplitsDigits(p, q) && s != []
    ensures Val(Zeros(shift / 64) + Shifted(s, p, q)) == Val(s) * Pow(2, shift)
  {
    hide Val, Pow, Shifted, SplitsDigits;
    ShiftedValue(s, p, q);
    ValOfShifted(shift / 64, Shifted(s, p, q));
    PowOfShift(shift);
    MulAssoc(Pow(B, shift / 64), p, Val(s));
  }

  lemma ShiftedTop(s: seq<Digit>, p: nat, q: nat)
    requires SplitsDigits(p, q) && s != [] && s[|s| - 1] != 0
    ensures Shifted(s, p, q)[|s|] == 0 ==> Shifted(s, p, q)[|s| - 1] != 0
  {
    var x, n := s[|s| - 1], |s|;
    assert Spill(s, n, p, q) == x / q;
    if x / q == 0 {
      LowerOfLow(s, n - 1, p, q);
      hide Lower, Spill, SplitsDigits, Shifted;
      assert Shifted(s, p, q)[n - 1] > 0;
    }
  }

  lemma LowerOfLow(s: seq<Digit>, k: nat, p: nat, q: nat)
    requires SplitsDigits(p, q) && k < |s| && s[k] != 0 && s[k] / q == 0
    ensures Lower(s, k, p, q) > 0
  {
    LowPart(s[k], q);
    MulPositive(s[k], p);
  }

  lemma LowPart(x: nat, q: nat)
    requires q > 0 && x / q == 0
    ensures x % q == x
  {
    SplitDigit(x, q);
  }

  lemma WordIsSplit(r: nat)
    requires r <= 64
    ensures SplitsDigits(Pow(2, r), Pow(2, 64 - r))
  {
    PowPositive(2, r);
    PowPositive(2, 64 - r);
    PowSum(2, r, 64 - r);
    TwoTo64();
  }

  lemma TwoTo64()
    ensures Pow(2, 64) == B
  {
    PowSum(2, 32, 32);
    PowSum(2, 16, 16);
    PowSum(2, 8, 8);
    PowSum(2, 4, 4);
    assert Pow(2, 4) == 16;
  }

  lemma PowOfShift(shift: nat)
    ensures Pow(2, shift) == Pow(B, shift / 64) * Pow(2, shift % 64)
  {
    PowSum(2, 64 * (shift / 64), shift % 64);
    PowOfDigits(shift / 64);
  }

  lemma {:induction false} PowOfDigits(n: nat)
    ensures Pow(2, 64 * n) == Pow(B, n)
  {
    if n > 0 {
      PowOfDigits(n - 1);
      PowSum(2, 64, 64 * (n - 1));
      TwoTo64();
    }
  }

  // ----- Decimal digits -----

  const POW5: seq<Half> :=
    [5, 25, 125, 625, 3125, 15625, 78125, 390625, 1953125, 9765625, 48828125, 244140625]

  lemma PowersOfFive()
    ensures forall i :: 0 <= i < 12 ==> POW5[i] == Pow(5, i + 1)
  {
    FirstPowersOfFive();
  }

  lemma LargePowersOfFive()
    ensures Pow(5, 27) == 0x6765_C793_FA10_079D && Pow(5, 13) == 1220703125
  {
    FirstPowersOfFive();
    hide Pow;
    PowSum(5, 1, 12);
    PowSum(5, 1, 13);
    PowSum(5, 13, 14);
  }

  lemma FirstPowersOfFive()
    ensures Pow(5, 1) == 5 && Pow(5, 2) == 25 && Pow(5, 3) == 125 && Pow(5, 4) == 625 && Pow(5, 5) == 3125
    ensures Pow(5, 6) == 15625 && Pow(5, 7) == 78125 && Pow(5, 8) == 390625 && Pow(5, 9) == 1953125
    ensures Pow(5, 10) == 9765625 && Pow(5, 11) == 48828125 && Pow(5, 12) == 244140625
  {
    assert Pow(5, 3) == 125;
    assert Pow(5, 6) == 15625;
    assert Pow(5, 9) == 1953125;
  }

  lemma PowZero(b: nat)
    ensures Pow(b, 0) == 1
  {
  }

  /** Taking a factor out of a power of five. */
  lemma SplitPower(v: nat, n: nat, rest: nat, goal: nat)
    requires n <= rest && v * Pow(5, rest) == goal < Pow(B, CAPACITY)
    ensures (Pow(5, n) * v) * Pow(5, rest - n) == goal && Pow(5, n) * v < Pow(B, CAPACITY)
  {
    PowSum(5, n, rest - n);
    PowPositive(5, rest - n);
    SplitFactor(v, Pow(5, n), Pow(5, rest - n));
    hide Pow;
  }

  lemma SplitFactor(v: nat, a: nat, b: nat)
    requires b > 0
    ensures (a * v) * b == v * (a * b) && a * v <= v * (a * b)
  {
    MulAssoc(v, a, b);
    MulMono(1, b, a * v);
  }

  /** The value of at most 19 digits, computed modulo 2^64, is exact. */
  method ParseUint64(chunk: string) returns (r: Digit)
    requires |chunk| <= 19 && forall k :: 0 <= k < |chunk| ==> IsDigit(chunk[k])
    ensures r == DecimalValue(chunk)
  {
    hide Pow, DecimalValue;
    EmptyDecimal();
    assert chunk[..0] == [];
    r := 0;
    for p := 0 to |chunk|
      invariant r == DecimalValue(chunk[..p])
    {
      DecimalStep(chunk, p);
      DecimalBelow(chunk[..p + 1]);
      PowMonotone(10, p + 1, 19);
      TenTo19();
      r := (r * 10 + (chunk[p] - '0') as nat) % B;
    }
    assert chunk[..|chunk|] == chunk;
  }

  lemma EmptyDecimal()
    ensures DecimalValue([]) == 0
  {
  }

  lemma TenTo19()
    ensures Pow(10, 19) < B
  {
    PowSum(10, 10, 9);
    PowSum(10, 5, 5);
    PowSum(10, 5, 4);
    assert Pow(10, 4) == 10000;
    assert Pow(10, 5) == 100000;
  }

  lemma DecimalStep(s: string, p: nat)
    requires p < |s| && forall k :: 0 <= k < |s| ==> IsDigit(s[k])
    ensures DecimalValue(s[..p + 1]) == DecimalValue(s[..p]) * 10 + (s[p] - '0') as nat
  {
    assert s[..p + 1][..p] == s[..p];
  }

  lemma {:induction false} DecimalBelow(s: string)
    requires forall k :: 0 <= k < |s| ==> IsDigit(s[k])
    ensures DecimalValue(s) < Pow(10, |s|)
  {
    if s != [] {
      assert IsDigit(s[|s| - 1]);
      DecimalBelow(s[..|s| - 1]);
      assert Pow(10, |s|) == 10 * Pow(10, |s| - 1);
    }
  }

  lemma {:induction false} DecimalAppend(a: string, b: string)
    requires forall k :: 0 <= k < |a| ==> IsDigit(a[k])
    requires forall k :: 0 <= k < |b| ==> IsDigit(b[k])
    ensures DecimalValue(a + b) == DecimalValue(a) * Pow(10, |b|) + DecimalValue(b)
  {
    if b == [] {
      assert a + b == a;
    } else {
      var init := b[..|b| - 1];
      DecimalAppend(a, init);
      assert (a + b)[..|a + b| - 1] == a + init;
      TenfoldAppend(DecimalValue(a), Pow(10, |init|), DecimalValue(init));
      assert Pow(10, |b|) == 10 * Pow(10, |init|);
    }
  }

  lemma TenfoldAppend(a: nat, p: nat, b: nat)
    ensures (a * p + b) * 10 == a * (10 * p) + b * 10
  {
  }

  lemma TenIsTwiceFive(n: nat)
    ensures Pow(10, n) == Pow(5, n) * Pow(2, n)
  {
    PowProduct(5, 2, n);
  }

  /** Room for the intermediate results of an append. */
  lemma AppendFits(v: nat, chunk: string)
    requires 0 < |chunk| <= 19 && forall k :: 0 <= k < |chunk| ==> IsDigit(chunk[k])
    requires 0 < v && v * Pow(5, |chunk|) < Pow(B, CAPACITY - 1)
    ensures v * Pow(5, |chunk|) < Pow(B, CAPACITY)
    ensures v * Pow(5, |chunk|) * Pow(2, |chunk|) == v * Pow(10, |chunk|)
    ensures v * Pow(10, |chunk|) + DecimalValue(chunk) < Pow(B, CAPACITY)
  {
    var n := |chunk|;
    assert Pow(B, CAPACITY) == B * Pow(B, CAPACITY - 1);
    hide Pow, DecimalValue;
    TenIsTwiceFive(n);
    DecimalBelow(chunk);
    SmallPowers(n);
    AppendBounds(v, Pow(5, n), Pow(2, n), DecimalValue(chunk), Pow(B, CAPACITY - 1));
  }

  lemma SmallPowers(n: nat)
    requires n <= 19
    ensures 0 < 2 * Pow(2, n) <= B
  {
    PowPositive(2, n);
    PowMonotone(2, n, 19);
    PowSum(2, 10, 9);
    PowSum(2, 5, 5);
    PowSum(2, 5, 4);
    assert Pow(2, 4) == 16 && Pow(2, 5) == 32;
  }

  lemma AppendBounds(v: nat, five: nat, two: nat, dec: nat, room: nat)
    requires v > 0 && v * five < room && dec < five * two && 0 < 2 * two <= B
    ensures v * five * two == v * (five * two) && v * five < B * room && v * (five * two) + dec < B * room
  {
    MulAssoc(v, five, two);
    MulMono(1, v, five);
    var w := v * five;
    assert dec < w * two by { MulMono(five, w, two); }
    assert w * two + dec < w * (2 * two);
    MulMono(w, room, 2 * two);
    MulMono(2 * two, B, room);
  }

  /** How many digits the last append gets. */
  function LastChunk(length: nat): (n: nat)
    requires length > 0
    ensures 0 < n <= 19 && n <= length && (length - n) % 19 == 0
  {
    if length % 19 == 0 then 19 else length % 19
  }

  /** The number before the last append leaves room for its product by a power of five, and for the
      digit above that which the shift writes. */
  ghost predicate DecimalsFit(decimals: string)
    requires |decimals| > 0 && forall k :: 0 <= k < |decimals| ==> IsDigit(decimals[k])
  {
    var n := LastChunk(|decimals|);
    DecimalValue(decimals[..|decimals| - n]) * Pow(5, n) < Pow(B, CAPACITY - 1)
  }

  /** Up to 19 digits less than the capacity holds always fit. */
  lemma ShortDecimalsFit(decimals: string)
    requires 0 < |decimals| <= 19 * (CAPACITY - 1) && forall k :: 0 <= k < |decimals| ==> IsDigit(decimals[k])
    ensures DecimalsFit(decimals)
  {
    hide Pow, DecimalValue;
    var n := LastChunk(|decimals|);
    var i := |decimals| - n;
    var v := DecimalValue(decimals[..i]);
    DecimalBelow(decimals[..i]);
    PowBaseMonotone(5, 10, n);
    PowPositive(10, n);
    MulMono(Pow(5, n), Pow(10, n), v);
    assert v * Pow(10, n) < Pow(10, i) * Pow(10, n) by { MulStrict(v, Pow(10, i), Pow(10, n)); }
    PowSum(10, i, n);
    PowMonotone(10, i + n, 19 * (CAPACITY - 1));
    TenBelowB(CAPACITY - 1);
  }

  lemma MulStrict(a: nat, b: nat, c: nat)
    requires a < b && c > 0
    ensures a * c < b * c
  {
  }

  /** Where they do not, the shift of the last append leaves the array, if the product is in it at all. */
  lemma DecimalsOverrun(decimals: string, product: seq<Digit>)
    requires |decimals| > 0 && (forall k :: 0 <= k < |decimals| ==> IsDigit(decimals[k])) && !DecimalsFit(decimals)
    requires var n := LastChunk(|decimals|);
             Normal(product) && Val(product) == DecimalValue(decimals[..|decimals| - n]) * Pow(5, n)
    ensures |product| >= CAPACITY && Touches(|product|, LastChunk(|decimals|), CAPACITY)
  {
    ValBelow(product);
    if |product| < CAPACITY { PowMonotone(B, |product|, CAPACITY - 1); }
  }

  lemma PrefixBelow(decimals: string, i: nat, j: nat)
    requires i <= j <= |decimals| && forall k :: 0 <= k < |decimals| ==> IsDigit(decimals[k])
    ensures DecimalValue(decimals[..i]) * Pow(10, j - i) + DecimalValue(decimals[i..j]) == DecimalValue(decimals[..j])
    ensures DecimalValue(decimals[..i]) <= DecimalValue(decimals[..j])
  {
    hide Pow, DecimalValue;
    assert decimals[..j] == decimals[..i] + decimals[i..j];
    DecimalAppend(decimals[..i], decimals[i..j]);
    PowPositive(10, j - i);
    MulMono(1, Pow(10, j - i), DecimalValue(decimals[..i]));
  }

  /** If the last append fits, so do all. */
  lemma ChunkFits(decimals: string, i: nat, n: nat)
    requires |decimals| > 0 && (forall k :: 0 <= k < |decimals| ==> IsDigit(decimals[k])) && DecimalsFit(decimals)
    requires i % 19 == 0 && 0 < n <= 19 && i + n <= |decimals| && (n == 19 || i + n == |decimals|)
    ensures DecimalValue(decimals[..i]) * Pow(5, n) < Pow(B, CAPACITY - 1)
    ensures DecimalValue(decimals[..i]) * Pow(10, n) + DecimalValue(decimals[i..i + n]) == DecimalValue(decimals[..i + n])
  {
    hide Pow, DecimalValue;
    var last := LastChunk(|decimals|);
    var j := |decimals| - last;
    PrefixBelow(decimals, i, i + n);
    if i + n == |decimals| {
      assert n == last;
    } else {
      PrefixBelow(decimals, i + n, j);
      PowBaseMonotone(5, 10, n);
      MulMono(Pow(5, n), Pow(10, n), DecimalValue(decimals[..i]));
      PowPositive(5, last);
      MulMono(1, Pow(5, last), DecimalValue(decimals[..j]));
    }
  }

  lemma {:induction false} TenBelowB(n: nat)
    ensures Pow(10, 19 * n) <= Pow(B, n)
  {
    if n > 0 {
      TenBelowB(n - 1);
      PowSum(10, 19, 19 * (n - 1));
      TenTo19();
      MulMono(Pow(10, 19), B, Pow(10, 19 * (n - 1)));
      MulMono(Pow(10, 19 * (n - 1)), Pow(B, n - 1), B);
    }
  }

  lemma DecimalDigits(s: seq<Digit>, decimals: string)
    requires Normal(s) && decimals != [] && forall k :: 0 <= k < |decimals| ==> IsDigit(decimals[k])
    requires Val(s) == DecimalValue(decimals)
    ensures |s| <= (|decimals| + 18) / 19
  {
    var n := (|decimals| + 18) / 19;
    DecimalBelow(decimals);
    PowMonotone(10, |decimals|, 19 * n);
    TenBelowB(n);
    DigitsBound(s, n);
  }
}
