/** What the error of a string or number that cannot be read says about its bytes
    (thirdparty/rapidjson/reader.h:754-774, 840-905, 1133-1386). */
module JsonScanErrors {
  import opened Core
  import opened Encodings
  import opened JsonGrammar
  import opened JsonStrings
  import opened JsonEscapes
  import opened JsonLiterals
  import opened JsonNumbers

  // ----- Strings -----

  predicate IsUnicodeEscape(s: seq<Byte>, pos: nat) {
    PeekByte(s, pos) == BACKSLASH && PeekByte(s, pos + 1) == LETTER_U
  }

  /** No character of a literal stands at `pos`, for the reason the error gives: the text or a NUL byte
      ends it; a bare control byte or an unknown letter behind a backslash; bytes that are no UTF-8; digits
      missing; a leading surrogate without a trailing one. */
  ghost predicate NoCharacter(s: seq<Byte>, pos: nat, validate: bool, e: ErrorCode) {
    var c := PeekByte(s, pos);
    match e
    case StringMissQuotationMark => c == 0
    case StringEscapeInvalid =>
      0 < c < 0x20 || (c == BACKSLASH && PeekByte(s, pos + 1) !in {34, 92, 47, 98, 102, 110, 114, 116, 117})
    case StringInvalidEncoding =>
      validate && c >= 0x20 && c != QUOTE && c != BACKSLASH && forall bytes :: Stands(s, pos, bytes) ==> !IsUtf8Char(bytes)
    case StringUnicodeEscapeInvalidHex => IsUnicodeEscape(s, pos) && LacksDigits(s, pos)
    case StringUnicodeSurrogateInvalid =>
      && IsUnicodeEscape(s, pos)
      && (exists unit :: IsLead(unit) && IsEscape(s, pos, unit))
      && (forall unit :: IsTrail(unit) ==> !IsEscape(s, pos + 6, unit))
    case _ => false
  }

  lemma UnicodeFails(s: seq<Byte>, pos: nat, validate: bool)
    requires IsUnicodeEscape(s, pos) && Unicode(s, pos).Failed?
    ensures NoCharacter(s, pos, validate, Unicode(s, pos).error)
  {
    UnicodeIsExact(s, pos);
    HexFits(s, pos + 2);
    hide Hex, Utf8Encode;
    if !LacksDigits(s, pos) {
      var unit := Hex(s, pos + 2, 4).value;
      assert IsLead(unit) && IsEscape(s, pos, unit);
    }
  }

  lemma RoundFails(s: seq<Byte>, pos: nat, validate: bool)
    requires pos < |s| && s[pos] != QUOTE && Round(s, pos, validate).Failed?
    ensures NoCharacter(s, pos, validate, Round(s, pos, validate).error)
  {
    if IsUnicodeEscape(s, pos) {
      UnicodeFails(s, pos, validate);
    } else if s[pos] >= 0x20 && s[pos] != BACKSLASH {
      forall bytes | Stands(s, pos, bytes) ensures !IsUtf8Char(bytes) {
        if IsUtf8Char(bytes) { CharacterAt(s, pos, bytes); }
      }
    }
    hide Unicode, Utf8Decode, LacksDigits, IsUtf8Char, Stands, IsEscape;
  }

  /** A literal that fails is one of the grammar up to the place where no character stands, and the
      error gives the reason. */
  lemma {:induction false} LiteralFails(s: seq<Byte>, pos: nat, validate: bool, out: seq<Byte>) returns (cs: seq<Char>)
    requires ParseFrom(s, pos, validate, out).Failed?
    ensures AreChars(cs, validate) && Paired(cs) && (cs != [] ==> Stands(s, pos, SpellAll(cs)))
    ensures NoCharacter(s, pos + |SpellAll(cs)|, validate, ParseFrom(s, pos, validate, out).error)
    decreases if pos <= |s| then |s| - pos + 1 else 0
  {
    hide Round, Spell, IsChar, NamesLead, NamesTrail, NoCharacter;
    cs := [];
    if pos >= |s| {
      NothingStands(s, pos, validate);
    } else if Round(s, pos, validate).Failed? {
      RoundFails(s, pos, validate);
    } else {
      OneRound(s, pos, validate, out);
      var r := Round(s, pos, validate);
      var first := RoundReads(s, pos, validate);
      var rest := LiteralFails(s, r.next, validate, out + r.text);
      cs := first + rest;
      SpelledParts(first, rest);
      if rest == [] {
        assert SpellAll(first) + [] == SpellAll(first);
      } else {
        StandsBoth(s, pos, SpellAll(first), SpellAll(rest));
      }
      PairedParts(first, rest);
    }
  }

  lemma NothingStands(s: seq<Byte>, pos: nat, validate: bool)
    requires pos >= |s|
    ensures NoCharacter(s, pos, validate, StringMissQuotationMark)
  {
  }

  // ----- Numbers -----

  /** Why no number can be read at `pos`. */
  ghost predicate NoNumber(s: seq<Byte>, pos: nat, tooBig: seq<Byte> -> bool, e: ErrorCode) {
    var start := if PeekByte(s, pos) == MINUS then pos + 1 else pos;
    match e
    case ValueInvalid => !IsDigitByte(PeekByte(s, start))
    case NumberMissFraction =>
      exists whole ::
        IsInt(whole) && Stands(s, start, whole)
        && PeekByte(s, start + |whole|) == POINT && !IsDigitByte(PeekByte(s, start + |whole| + 1))
    case NumberMissExponent =>
      exists n :: IsNumber(n) && n.exponent.None? && Stands(s, pos, SpellNumber(n)) && LacksExponent(s, pos + |SpellNumber(n)|)
    case NumberTooBig => exists n :: IsNumber(n) && Stands(s, pos, SpellNumber(n)) && tooBig(SpellNumber(n))
    case _ => false
  }

  /** The letter, perhaps a sign, and no digit. */
  predicate LacksExponent(s: seq<Byte>, pos: nat) {
    && IsExponentLetter(PeekByte(s, pos))
    && var c := PeekByte(s, pos + 1);
       !IsDigitByte(if c == PLUS || c == MINUS then PeekByte(s, pos + 2) else c)
  }

  lemma NumberFails(s: seq<Byte>, pos: nat, tooBig: seq<Byte> -> bool)
    requires pos <= |s| && ScanNumber(s, pos, tooBig).Failed?
    ensures NoNumber(s, pos, tooBig, ScanNumber(s, pos, tooBig).error)
  {
    hide IntEnd, FractionEnd, ExponentEnd, NoNumber;
    var minus := PeekByte(s, pos) == MINUS;
    var start := if minus then pos + 1 else pos;
    if IntEnd(s, start).None? {
      NoInteger(s, pos, tooBig);
    } else {
      var whole := IntEnd(s, start).value;
      IntReads(s, start);
      if tooBig(s[pos..whole]) {
        NumeralStands(s, pos, start, whole, whole, whole, minus, [], None);
        TooBigNumeral(s, pos, Numeral(minus, s[start..whole], [], None), tooBig);
      } else if FractionEnd(s, whole).None? {
        NoFraction(s, pos, start, whole, tooBig);
      } else {
        var fraction := FractionEnd(s, whole).value;
        var digits := FractionReads(s, whole);
        if ExponentEnd(s, fraction).None? {
          NumeralStands(s, pos, start, whole, fraction, fraction, minus, digits, None);
          NoExponent(s, pos, Numeral(minus, s[start..whole], digits, None), tooBig);
        } else {
          var exponent := ExponentReads(s, fraction);
          var end := ExponentEnd(s, fraction).value;
          NumeralStands(s, pos, start, whole, fraction, end, minus, digits, exponent);
          TooBigNumeral(s, pos, Numeral(minus, s[start..whole], digits, exponent), tooBig);
        }
      }
    }
  }

  lemma NoInteger(s: seq<Byte>, pos: nat, tooBig: seq<Byte> -> bool)
    requires IntEnd(s, if PeekByte(s, pos) == MINUS then pos + 1 else pos).None?
    ensures NoNumber(s, pos, tooBig, ValueInvalid)
  {
  }

  lemma NoFraction(s: seq<Byte>, pos: nat, start: nat, whole: nat, tooBig: seq<Byte> -> bool)
    requires start == (if PeekByte(s, pos) == MINUS then pos + 1 else pos) && start < whole <= |s|
    requires IsInt(s[start..whole]) && FractionEnd(s, whole).None?
    ensures NoNumber(s, pos, tooBig, NumberMissFraction)
  {
    assert Stands(s, start, s[start..whole]) && start + |s[start..whole]| == whole;
  }

  lemma NoExponent(s: seq<Byte>, pos: nat, n: Numeral, tooBig: seq<Byte> -> bool)
    requires IsNumber(n) && n.exponent.None? && Stands(s, pos, SpellNumber(n)) && ExponentEnd(s, pos + |SpellNumber(n)|).None?
    ensures NoNumber(s, pos, tooBig, NumberMissExponent)
  {
    hide IsNumber, SpellNumber, Stands;
    assert LacksExponent(s, pos + |SpellNumber(n)|);
  }

  lemma TooBigNumeral(s: seq<Byte>, pos: nat, n: Numeral, tooBig: seq<Byte> -> bool)
    requires IsNumber(n) && Stands(s, pos, SpellNumber(n)) && tooBig(SpellNumber(n))
    ensures NoNumber(s, pos, tooBig, NumberTooBig)
  {
  }

  /** The four parts that have been read are a number. */
  lemma NumeralStands(
    s: seq<Byte>, pos: nat, start: nat, whole: nat, fraction: nat, end: nat, minus: bool, digits: seq<Byte>, e: Option<Exponent>)
    requires pos <= start <= whole <= fraction <= end <= |s|
    requires minus == (PeekByte(s, pos) == MINUS) && start == (if minus then pos + 1 else pos)
    requires IsInt(s[start..whole]) && AreDigits(digits) && (e.Some? ==> IsExponent(e.value))
    requires s[whole..fraction] == SpellFraction(digits) && s[fraction..end] == SpellExponent(e)
    ensures var n := Numeral(minus, s[start..whole], digits, e);
            && IsNumber(n) && SpellNumber(n) == s[pos..end] && Stands(s, pos, SpellNumber(n))
            && pos + |SpellNumber(n)| == end
  {
    hide IsInt, IsExponent, SpellFraction, SpellExponent;
    assert s[pos..start] == SpellSign(minus);
    JsonNumbers.FourParts(s, pos, start, whole, fraction, end);
  }
}
