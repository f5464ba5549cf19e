/** What the `\u` escapes of a JSON string mean (thirdparty/rapidjson/reader.h:754-774, 867-882;
    section 2.5 of RFC 4627): the code units of UTF-16, delivered in UTF-8. */
module JsonEscapes {
  import opened Core
  import opened Encodings
  import G = JsonGrammar
  import opened JsonStrings

  /** A backslash, the letter u and four hexadecimal digits, in either case, with this value. */
  predicate IsEscape(s: seq<Byte>, pos: nat, unit: Unit) {
    PeekByte(s, pos) == BACKSLASH && PeekByte(s, pos + 1) == LETTER_U && Hex(s, pos + 2, 4) == Some(unit)
  }

  /** The escapes of these units follow each other. */
  predicate AreEscapes(s: seq<Byte>, pos: nat, units: seq<Unit>) {
    forall k :: 0 <= k < |units| ==> IsEscape(s, pos + 6 * k, units[k])
  }

  predicate IsLead(unit: Unit) { 0xD800 <= unit <= 0xDBFF }

  predicate IsTrail(unit: Unit) { 0xDC00 <= unit <= 0xDFFF }

  /** The escapes of a scalar value deliver its UTF-8 bytes. */
  lemma ScalarEscapes(s: seq<Byte>, pos: nat, cp: nat)
    requires IsScalar(cp) && AreEscapes(s, pos, Utf16Encode(cp))
    ensures Unicode(s, pos) == Found(Utf8Encode(cp), pos + 6 * |Utf16Encode(cp)|)
  {
    hide Utf8Encode, Hex;
    var units := Utf16Encode(cp);
    assert IsEscape(s, pos + 6 * 0, units[0]);
    if |units| == 2 {
      assert IsEscape(s, pos + 6 * 1, units[1]);
      PairValue(cp);
    }
  }

  /** A surrogate pair stands for one code point above 0xFFFF. */
  function JoinPair(lead: nat, trail: nat): nat
    requires 0xD800 <= lead && 0xDC00 <= trail
  {
    (lead - 0xD800) * 1024 + (trail - 0xDC00) + 0x1_0000
  }

  lemma PairValue(cp: nat)
    requires 0x1_0000 <= cp <= 0x10FFFF
    ensures var units := Utf16Encode(cp);
            IsLead(units[0]) && IsTrail(units[1]) && JoinPair(units[0], units[1]) == cp
  {
  }

  lemma PairScalar(lead: Unit, trail: Unit)
    requires IsLead(lead) && IsTrail(trail)
    ensures var cp := JoinPair(lead, trail);
            0x1_0000 <= cp <= 0x10FFFF && Utf16Encode(cp) == [lead, trail]
  {
    var high, low := lead - 0xD800, trail - 0xDC00;
    assert (high * 1024 + low) / 1024 == high && (high * 1024 + low) % 1024 == low;
  }

  /** The three bytes a surrogate would have; they are no UTF-8. */
  function SurrogateBytes(unit: Unit): seq<Byte>
    requires IsTrail(unit)
  {
    [0xED, 0x80 + (unit / 64) % 64, 0x80 + unit % 64]
  }

  /** A trailing surrogate that follows no leading one is accepted, and delivers bytes that are no
      UTF-8. */
  lemma LoneTrail(s: seq<Byte>, pos: nat, unit: Unit)
    requires IsTrail(unit) && IsEscape(s, pos, unit)
    ensures Unicode(s, pos) == Found(SurrogateBytes(unit), pos + 6)
    ensures !IsUtf8Char(SurrogateBytes(unit))
  {
    hide Hex;
    assert unit / 4096 == 0xD && (unit / 64) % 64 >= 0x30;
  }

  /** What the escapes at `pos` say: a scalar value, or a trailing surrogate on its own. */
  ghost predicate Delivers(s: seq<Byte>, pos: nat, text: seq<Byte>, next: nat) {
    || (exists cp :: IsScalar(cp) && AreEscapes(s, pos, Utf16Encode(cp))
                     && text == Utf8Encode(cp) && next == pos + 6 * |Utf16Encode(cp)|)
    || (exists unit :: IsTrail(unit) && IsEscape(s, pos, unit) && text == SurrogateBytes(unit) && next == pos + 6)
  }

  /** Four digits are missing, in the first escape or in the second half of a pair. */
  predicate LacksDigits(s: seq<Byte>, pos: nat) {
    match Hex(s, pos + 2, 4)
    case None => true
    case Some(unit) =>
      && 0xD800 <= unit <= 0xDBFF
      && PeekByte(s, pos + 6) == BACKSLASH && PeekByte(s, pos + 7) == LETTER_U && Hex(s, pos + 8, 4).None?
  }

  /** An escape is accepted exactly if it is that of a scalar value or of a trailing surrogate, and
      delivers just that; otherwise the error says whether digits or the trailing surrogate are missing. */
  lemma UnicodeIsExact(s: seq<Byte>, pos: nat)
    requires PeekByte(s, pos) == BACKSLASH && PeekByte(s, pos + 1) == LETTER_U
    ensures forall text, next :: Delivers(s, pos, text, next) <==> Unicode(s, pos) == Found(text, next)
    ensures Unicode(s, pos).Failed? ==>
              Unicode(s, pos).error == if LacksDigits(s, pos) then G.StringUnicodeEscapeInvalidHex else G.StringUnicodeSurrogateInvalid
  {
    forall text, next | Delivers(s, pos, text, next) ensures Unicode(s, pos) == Found(text, next) {
      if unit: Unit :| IsTrail(unit) && IsEscape(s, pos, unit) && text == SurrogateBytes(unit) && next == pos + 6 {
        LoneTrail(s, pos, unit);
      } else {
        var cp :| IsScalar(cp) && AreEscapes(s, pos, Utf16Encode(cp))
                  && text == Utf8Encode(cp) && next == pos + 6 * |Utf16Encode(cp)|;
        ScalarEscapes(s, pos, cp);
      }
    }
    if Unicode(s, pos).Found? { FoundIsDelivered(s, pos); }
    HexFits(s, pos + 2);
    hide Hex, Utf8Encode, Delivers;
  }

  lemma FoundIsDelivered(s: seq<Byte>, pos: nat)
    requires PeekByte(s, pos) == BACKSLASH && PeekByte(s, pos + 1) == LETTER_U && Unicode(s, pos).Found?
    ensures Delivers(s, pos, Unicode(s, pos).text, Unicode(s, pos).next)
  {
    var unit := FoundUnit(s, pos);
    var trail: Unit := 0;
    if IsLead(unit) { trail := FoundTrail(s, pos, unit); }
    hide Unicode, Hex, Utf8Encode, IsEscape;
    if IsTrail(unit) {
      LoneTrail(s, pos, unit);
    } else {
      var cp := if IsLead(unit) then JoinPair(unit, trail) else unit;
      if IsLead(unit) { PairScalar(unit, trail); }
      assert AreEscapes(s, pos, Utf16Encode(cp));
      ScalarEscapes(s, pos, cp);
    }
  }

  lemma FoundUnit(s: seq<Byte>, pos: nat) returns (unit: Unit)
    requires PeekByte(s, pos) == BACKSLASH && PeekByte(s, pos + 1) == LETTER_U && Unicode(s, pos).Found?
    ensures IsEscape(s, pos, unit)
  {
    HexFits(s, pos + 2);
    unit := Hex(s, pos + 2, 4).value;
  }

  lemma FoundTrail(s: seq<Byte>, pos: nat, lead: Unit) returns (trail: Unit)
    requires IsEscape(s, pos, lead) && IsLead(lead) && Unicode(s, pos).Found?
    ensures IsEscape(s, pos + 6, trail) && IsTrail(trail)
  {
    hide Hex, Utf8Encode;
    HexFits(s, pos + 8);
    trail := Hex(s, pos + 8, 4).value;
  }
}
