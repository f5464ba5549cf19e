/** The numbers the reader accepts, against the grammar of section 2.4 of RFC 4627
    (thirdparty/rapidjson/reader.h:1133-1386). Their value is their text; which ones are too big for a
    double is a parameter. */
module JsonNumbers {
  import opened Core
  import opened Encodings
  import opened JsonGrammar
  import opened JsonStrings

  const MINUS: Byte := 45
  const PLUS: Byte := 43
  const POINT: Byte := 46
  const ZERO: Byte := 48

  predicate IsDigitByte(c: Byte) { 48 <= c <= 57 }

  predicate IsExponentLetter(c: Byte) { c == 101 || c == 69 }

  predicate AreDigits(s: seq<Byte>) { forall k :: 0 <= k < |s| ==> IsDigitByte(s[k]) }

  // ----- The grammar -----

  datatype Exponent = Exponent(letter: Byte, sign: seq<Byte>, digits: seq<Byte>)

  /** An empty fraction is none. */
  datatype Numeral = Numeral(minus: bool, whole: seq<Byte>, fraction: seq<Byte>, exponent: Option<Exponent>)

  predicate IsInt(whole: seq<Byte>) {
    whole == [ZERO] || (whole != [] && AreDigits(whole) && whole[0] != ZERO)
  }

  predicate IsExponent(e: Exponent) {
    IsExponentLetter(e.letter) && e.sign in {[], [PLUS], [MINUS]} && e.digits != [] && AreDigits(e.digits)
  }

  predicate IsNumber(n: Numeral) {
    IsInt(n.whole) && AreDigits(n.fraction) && (n.exponent.Some? ==> IsExponent(n.exponent.value))
  }

  function SpellFraction(digits: seq<Byte>): seq<Byte> {
    if digits == [] then [] else [POINT] + digits
  }

  function SpellExponent(e: Option<Exponent>): seq<Byte> {
    if e.None? then [] else [e.value.letter] + (e.value.sign + e.value.digits)
  }

  function SpellSign(minus: bool): seq<Byte> { if minus then [MINUS] else [] }

  function SpellNumber(n: Numeral): seq<Byte> {
    SpellSign(n.minus) + (n.whole + (SpellFraction(n.fraction) + SpellExponent(n.exponent)))
  }

  // ----- Reading -----

  /** Behind the digits. */
  function DigitsEnd(s: seq<Byte>, pos: nat): (end: nat)
    ensures pos <= end && (end > pos ==> end <= |s|)
    decreases |s| - pos
  {
    if IsDigitByte(PeekByte(s, pos)) then DigitsEnd(s, pos + 1) else pos
  }

  function IntEnd(s: seq<Byte>, pos: nat): (end: Option<nat>)
    ensures end.Some? ==> pos < end.value <= |s|
  {
    if PeekByte(s, pos) == ZERO then Some(pos + 1)
    else if IsDigitByte(PeekByte(s, pos)) then Some(DigitsEnd(s, pos))
    else None
  }

  function FractionEnd(s: seq<Byte>, pos: nat): (end: Option<nat>)
    ensures end.Some? ==> pos <= end.value && (pos <= |s| ==> end.value <= |s|)
  {
    if PeekByte(s, pos) != POINT then Some(pos)
    else if IsDigitByte(PeekByte(s, pos + 1)) then Some(DigitsEnd(s, pos + 1))
    else None
  }

  function SignEnd(s: seq<Byte>, pos: nat): nat {
    if PeekByte(s, pos) == PLUS || PeekByte(s, pos) == MINUS then pos + 1 else pos
  }

  function ExponentEnd(s: seq<Byte>, pos: nat): (end: Option<nat>)
    ensures end.Some? ==> pos <= end.value && (pos <= |s| ==> end.value <= |s|)
  {
    if !IsExponentLetter(PeekByte(s, pos)) then Some(pos) else
      var digits := SignEnd(s, pos + 1);
      if IsDigitByte(PeekByte(s, digits)) then Some(DigitsEnd(s, digits)) else None
  }

  /** A number at `pos`: its text and where it ends, or the error. */
  function ScanNumber(s: seq<Byte>, pos: nat, tooBig: seq<Byte> -> bool): (r: Scan)
    ensures r.Found? ==> pos < r.next <= |s| && r.text == s[pos..r.next] && !tooBig(r.text)
  {
    match IntEnd(s, if PeekByte(s, pos) == MINUS then pos + 1 else pos)
    case None => Failed(ValueInvalid)
    case Some(whole) =>
      if tooBig(s[pos..whole]) then Failed(NumberTooBig) else
        match FractionEnd(s, whole)
        case None => Failed(NumberMissFraction)
        case Some(fraction) =>
          match ExponentEnd(s, fraction)
          case None => Failed(NumberMissExponent)
          case Some(end) => if tooBig(s[pos..end]) then Failed(NumberTooBig) else Found(s[pos..end], end)
  }

  method SkipDigits(s: seq<Byte>, pos: nat) returns (end: nat)
    ensures end == DigitsEnd(s, pos)
  {
    end := pos;
    while IsDigitByte(PeekByte(s, end))
      invariant pos <= end && DigitsEnd(s, end) == DigitsEnd(s, pos)
      decreases |s| - end
    {
      end := end + 1;
    }
  }

  method SkipInt(s: seq<Byte>, pos: nat) returns (end: Option<nat>)
    ensures end == IntEnd(s, pos)
  {
    if PeekByte(s, pos) == ZERO {
      end := Some(pos + 1);
    } else if IsDigitByte(PeekByte(s, pos)) {
      var digits := SkipDigits(s, pos);
      end := Some(digits);
    } else {
      end := None;
    }
  }

  method SkipFraction(s: seq<Byte>, pos: nat) returns (end: Option<nat>)
    ensures end == FractionEnd(s, pos)
  {
    if PeekByte(s, pos) != POINT { return Some(pos); }
    if !IsDigitByte(PeekByte(s, pos + 1)) { return None; }
    var digits := SkipDigits(s, pos + 1);
    end := Some(digits);
  }

  method SkipExponent(s: seq<Byte>, pos: nat) returns (end: Option<nat>)
    ensures end == ExponentEnd(s, pos)
  {
    if !IsExponentLetter(PeekByte(s, pos)) { return Some(pos); }
    var digits := pos + 1;
    if PeekByte(s, digits) == PLUS || PeekByte(s, digits) == MINUS {
      digits := digits + 1;
    }
    if !IsDigitByte(PeekByte(s, digits)) { return None; }
    digits := SkipDigits(s, digits);
    end := Some(digits);
  }

  method ParseNumber(s: seq<Byte>, pos: nat, tooBig: seq<Byte> -> bool) returns (r: Scan)
    ensures r == ScanNumber(s, pos, tooBig)
  {
    hide IntEnd, FractionEnd, ExponentEnd;
    var start := pos;
    if PeekByte(s, pos) == MINUS {
      start := start + 1;
    }
    var whole := SkipInt(s, start);
    if whole.None? { return Failed(ValueInvalid); }
    if tooBig(s[pos..whole.value]) { return Failed(NumberTooBig); }
    var fraction := SkipFraction(s, whole.value);
    if fraction.None? { return Failed(NumberMissFraction); }
    var end := SkipExponent(s, fraction.value);
    if end.None? { return Failed(NumberMissExponent); }
    r := if tooBig(s[pos..end.value]) then Failed(NumberTooBig) else Found(s[pos..end.value], end.value);
  }

  // ----- What is read is a number of the grammar -----

  lemma {:induction false} DigitsAre(s: seq<Byte>, pos: nat)
    requires pos <= |s|
    ensures DigitsEnd(s, pos) <= |s| && AreDigits(s[pos..DigitsEnd(s, pos)])
    decreases |s| - pos
  {
    if IsDigitByte(PeekByte(s, pos)) {
      DigitsAre(s, pos + 1);
      assert s[pos..DigitsEnd(s, pos)] == [s[pos]] + s[pos + 1..DigitsEnd(s, pos)];
    }
  }

  lemma IntReads(s: seq<Byte>, pos: nat)
    requires IntEnd(s, pos).Some?
    ensures IsInt(s[pos..IntEnd(s, pos).value])
  {
    if PeekByte(s, pos) == ZERO {
      assert s[pos..pos + 1] == [ZERO];
    } else {
      DigitsAre(s, pos);
    }
  }

  lemma FractionReads(s: seq<Byte>, pos: nat) returns (digits: seq<Byte>)
    requires pos <= |s| && FractionEnd(s, pos).Some?
    ensures AreDigits(digits) && s[pos..FractionEnd(s, pos).value] == SpellFraction(digits)
  {
    digits := [];
    if PeekByte(s, pos) == POINT {
      var end := FractionEnd(s, pos).value;
      DigitsAre(s, pos + 1);
      digits := s[pos + 1..end];
      assert s[pos..end] == [POINT] + digits;
    }
  }

  lemma ExponentReads(s: seq<Byte>, pos: nat) returns (e: Option<Exponent>)
    requires pos <= |s| && ExponentEnd(s, pos).Some?
    ensures e.Some? ==> IsExponent(e.value)
    ensures s[pos..ExponentEnd(s, pos).value] == SpellExponent(e)
  {
    e := None;
    if IsExponentLetter(PeekByte(s, pos)) {
      var digits, end := SignEnd(s, pos + 1), ExponentEnd(s, pos).value;
      DigitsAre(s, digits);
      e := Some(Exponent(s[pos], s[pos + 1..digits], s[digits..end]));
      assert s[pos..end] == [s[pos]] + (s[pos + 1..digits] + s[digits..end]);
      assert digits == pos + 2 ==> s[pos + 1..digits] == [s[pos + 1]];
    }
  }

  lemma ScannedIsNumber(s: seq<Byte>, pos: nat, tooBig: seq<Byte> -> bool) returns (n: Numeral)
    requires pos <= |s| && ScanNumber(s, pos, tooBig).Found?
    ensures IsNumber(n) && IsInRange(n, tooBig) && ScanNumber(s, pos, tooBig).text == SpellNumber(n)
  {
    hide IntEnd, FractionEnd, ExponentEnd, IsInt, IsExponent, SpellFraction, SpellExponent;
    var minus := PeekByte(s, pos) == MINUS;
    var start := if minus then pos + 1 else pos;
    var whole := IntEnd(s, start).value;
    var fraction := FractionEnd(s, whole).value;
    var end := ExponentEnd(s, fraction).value;
    IntReads(s, start);
    var digits := FractionReads(s, whole);
    var exponent := ExponentReads(s, fraction);
    n := Numeral(minus, s[start..whole], digits, exponent);
    assert s[pos..start] == SpellSign(minus);
    assert s[pos..whole] == s[pos..start] + s[start..whole];
    FourParts(s, pos, start, whole, fraction, end);
  }

  lemma FourParts(s: seq<Byte>, a: nat, b: nat, c: nat, d: nat, e: nat)
    requires a <= b <= c <= d <= e <= |s|
    ensures s[a..e] == s[a..b] + (s[b..c] + (s[c..d] + s[d..e]))
  {
  }

  // ----- A number of the grammar is read -----

  lemma {:induction false} DigitsSpelled(s: seq<Byte>, pos: nat, digits: seq<Byte>)
    requires Stands(s, pos, digits) && AreDigits(digits) && !IsDigitByte(PeekByte(s, pos + |digits|))
    ensures DigitsEnd(s, pos) == pos + |digits|
    decreases |digits|
  {
    if digits != [] {
      ByteAt(s, pos, digits, 0);
      assert digits == [digits[0]] + digits[1..];
      StandsParts(s, pos, [digits[0]], digits[1..]);
      DigitsSpelled(s, pos + 1, digits[1..]);
    }
  }

  lemma IntSpelled(s: seq<Byte>, pos: nat, whole: seq<Byte>)
    requires Stands(s, pos, whole) && IsInt(whole) && !IsDigitByte(PeekByte(s, pos + |whole|))
    ensures IntEnd(s, pos) == Some(pos + |whole|)
    ensures PeekByte(s, pos) != MINUS
  {
    ByteAt(s, pos, whole, 0);
    if whole != [ZERO] { DigitsSpelled(s, pos, whole); }
  }

  lemma FractionSpelled(s: seq<Byte>, pos: nat, digits: seq<Byte>)
    requires Stands(s, pos, SpellFraction(digits)) && AreDigits(digits)
    requires var c := PeekByte(s, pos + |SpellFraction(digits)|); !IsDigitByte(c) && c != POINT
    ensures FractionEnd(s, pos) == Some(pos + |SpellFraction(digits)|)
    ensures !IsDigitByte(PeekByte(s, pos))
  {
    if digits != [] {
      ByteAt(s, pos, [POINT] + digits, 0);
      StandsParts(s, pos, [POINT], digits);
      ByteAt(s, pos + 1, digits, 0);
      DigitsSpelled(s, pos + 1, digits);
    }
  }

  lemma ExponentSpelled(s: seq<Byte>, pos: nat, e: Option<Exponent>)
    requires Stands(s, pos, SpellExponent(e)) && (e.Some? ==> IsExponent(e.value))
    requires EndsNumber(PeekByte(s, pos + |SpellExponent(e)|))
    ensures ExponentEnd(s, pos) == Some(pos + |SpellExponent(e)|)
    ensures var c := PeekByte(s, pos); !IsDigitByte(c) && c != POINT
  {
    if e.Some? {
      var sign, digits := e.value.sign, e.value.digits;
      ByteAt(s, pos, SpellExponent(e), 0);
      StandsParts(s, pos, [e.value.letter], sign + digits);
      StandsParts(s, pos + 1, sign, digits);
      ByteAt(s, pos + 1 + |sign|, digits, 0);
      if sign != [] { ByteAt(s, pos + 1, sign, 0); }
      DigitsSpelled(s, pos + 1 + |sign|, digits);
    }
  }

  /** The byte continues no number. */
  predicate EndsNumber(c: Byte) { !IsDigitByte(c) && c != POINT && !IsExponentLetter(c) }

  /** The number is not too big, as the reader notices it: by its integer part or as a whole. */
  predicate IsInRange(n: Numeral, tooBig: seq<Byte> -> bool) {
    !tooBig(SpellSign(n.minus) + n.whole) && !tooBig(SpellNumber(n))
  }

  lemma NumberStands(s: seq<Byte>, pos: nat, n: Numeral)
    requires Stands(s, pos, SpellNumber(n)) && IsNumber(n)
    ensures var start := pos + |SpellSign(n.minus)|;
            var fraction := start + |n.whole|;
            var exponent := fraction + |SpellFraction(n.fraction)|;
            && Stands(s, pos, SpellSign(n.minus) + n.whole) && Stands(s, start, n.whole)
            && Stands(s, fraction, SpellFraction(n.fraction)) && Stands(s, exponent, SpellExponent(n.exponent))
            && exponent + |SpellExponent(n.exponent)| == pos + |SpellNumber(n)|
    ensures PeekByte(s, pos) == SpellNumber(n)[0] && (n.minus ==> PeekByte(s, pos) == MINUS)
  {
    hide SpellFraction, SpellExponent;
    var sign, whole, fraction, exponent := SpellSign(n.minus), n.whole, SpellFraction(n.fraction), SpellExponent(n.exponent);
    assert SpellNumber(n) == (sign + whole) + (fraction + exponent);
    StandsParts(s, pos, sign + whole, fraction + exponent);
    StandsParts(s, pos, sign, whole);
    StandsParts(s, pos + |sign| + |whole|, fraction, exponent);
    ByteAt(s, pos, SpellNumber(n), 0);
  }

  lemma NumberSpelled(s: seq<Byte>, pos: nat, n: Numeral, tooBig: seq<Byte> -> bool)
    requires Stands(s, pos, SpellNumber(n)) && IsNumber(n) && IsInRange(n, tooBig)
    requires EndsNumber(PeekByte(s, pos + |SpellNumber(n)|))
    ensures ScanNumber(s, pos, tooBig) == Found(SpellNumber(n), pos + |SpellNumber(n)|)
    ensures PeekByte(s, pos) == SpellNumber(n)[0]
  {
    hide Stands, IntEnd, FractionEnd, ExponentEnd, IsInt, IsExponent, SpellFraction, SpellExponent, AreDigits, SpellNumber,
         PeekByte, EndsNumber, IsDigitByte;
    NumberStands(s, pos, n);
    var start := pos + |SpellSign(n.minus)|;
    var fraction := start + |n.whole|;
    ExponentSpelled(s, fraction + |SpellFraction(n.fraction)|, n.exponent);
    FractionSpelled(s, fraction, n.fraction);
    IntSpelled(s, start, n.whole);
    StandsSlice(s, pos, SpellSign(n.minus) + n.whole);
    StandsSlice(s, pos, SpellNumber(n));
  }
}
