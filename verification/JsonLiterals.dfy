/** The string literals the reader accepts, against the grammar of section 2.5 of RFC 4627
    (thirdparty/rapidjson/reader.h:754-774, 840-905). */
module JsonLiterals {
  import opened Core
  import opened Encodings
  import opened JsonStrings
  import opened JsonEscapes

  // ----- The grammar -----

  /** A character as it is written: as itself, by one letter, or by four hexadecimal digits. */
  datatype Char =
    | Unescaped(bytes: seq<Byte>)
    | Escaped(letter: Byte)
    | Coded(digits: seq<Byte>)

  /** `char` of the grammar. Without validation any byte from 0x80 on passes for a character. */
  predicate IsChar(c: Char, validate: bool) {
    match c
    case Unescaped(bytes) =>
      && bytes != [] && bytes[0] >= 0x20 && bytes[0] != QUOTE && bytes[0] != BACKSLASH
      && (if validate then IsUtf8Char(bytes) else |bytes| == 1)
    case Escaped(letter) => letter in {34, 92, 47, 98, 102, 110, 114, 116}
    case Coded(digits) => |digits| == 4 && forall k :: 0 <= k < 4 ==> HexValue(digits[k]).Some?
  }

  function Spell(c: Char): seq<Byte> {
    match c
    case Unescaped(bytes) => bytes
    case Escaped(letter) => [BACKSLASH, letter]
    case Coded(digits) => [BACKSLASH, LETTER_U] + digits
  }

  function SpellAll(cs: seq<Char>): seq<Byte> {
    if cs == [] then [] else Spell(cs[0]) + SpellAll(cs[1..])
  }

  predicate AreChars(cs: seq<Char>, validate: bool) {
    forall k :: 0 <= k < |cs| ==> IsChar(cs[k], validate)
  }

  /** The code unit of UTF-16 that four digits name. */
  function UnitOf(c: Char): (unit: Option<nat>)
    ensures unit.Some? ==> unit.value < 0x1_0000
  {
    if c.Coded? then
      HexFits(c.digits, 0);
      Hex(c.digits, 0, 4)
    else None
  }

  predicate NamesLead(c: Char) { UnitOf(c).Some? && IsLead(UnitOf(c).value) }

  predicate NamesTrail(c: Char) { UnitOf(c).Some? && IsTrail(UnitOf(c).value) }

  /** What the grammar allows and the reader does not: a leading surrogate without a trailing one. */
  predicate Paired(cs: seq<Char>) {
    forall k :: 0 <= k < |cs| && NamesLead(cs[k]) ==> k + 1 < |cs| && NamesTrail(cs[k + 1])
  }

  function BytesOf(c: Char): seq<Byte> {
    match c
    case Unescaped(bytes) => bytes
    case Escaped(letter) => [UnescapeLetter(letter)]
    case Coded(_) => if UnitOf(c).Some? then Utf8Encode(UnitOf(c).value) else []
  }

  predicate StartsPair(cs: seq<Char>) { |cs| >= 2 && NamesLead(cs[0]) && NamesTrail(cs[1]) }

  /** The code point of the pair, in UTF-8. */
  function PairBytes(lead: Char, trail: Char): seq<Byte>
    requires NamesLead(lead) && NamesTrail(trail)
  {
    Utf8Encode(JoinPair(UnitOf(lead).value, UnitOf(trail).value))
  }

  /** The bytes the characters stand for. */
  function Meaning(cs: seq<Char>): seq<Byte> {
    if cs == [] then []
    else if StartsPair(cs) then PairBytes(cs[0], cs[1]) + Meaning(cs[2..])
    else BytesOf(cs[0]) + Meaning(cs[1..])
  }

  /** These characters and the closing quote stand at `pos`. */
  ghost predicate IsLiteral(s: seq<Byte>, pos: nat, cs: seq<Char>, validate: bool) {
    AreChars(cs, validate) && Paired(cs) && Stands(s, pos, SpellAll(cs) + [QUOTE])
  }

  // ----- What the grammar allows is read -----

  lemma {:induction false} HexAt(s: seq<Byte>, pos: nat, digits: seq<Byte>, n: nat)
    requires Stands(s, pos, digits) && n <= |digits|
    ensures Hex(s, pos, n) == Hex(digits, 0, n)
  {
    if n > 0 {
      HexAt(s, pos, digits, n - 1);
      ByteAt(s, pos, digits, n - 1);
    }
  }

  /** Four digits have a value. */
  lemma CodedNamesUnit(c: Char, validate: bool)
    requires IsChar(c, validate) && c.Coded?
    ensures UnitOf(c).Some?
  {
    var d := c.digits;
    assert HexValue(d[0]).Some? && HexValue(d[1]).Some? && HexValue(d[2]).Some? && HexValue(d[3]).Some?;
    assert Hex(d, 0, 0) == Some(0);
    assert Hex(d, 0, 1).Some?;
    assert Hex(d, 0, 2).Some?;
    assert Hex(d, 0, 3).Some?;
  }

  lemma CodedIsEscape(s: seq<Byte>, pos: nat, c: Char, validate: bool)
    requires IsChar(c, validate) && c.Coded? && Stands(s, pos, Spell(c))
    ensures UnitOf(c).Some? && IsEscape(s, pos, UnitOf(c).value) && pos < |s|
  {
    CodedNamesUnit(c, validate);
    StandsParts(s, pos, [BACKSLASH, LETTER_U], c.digits);
    HexAt(s, pos + 2, c.digits, 4);
    ByteAt(s, pos, Spell(c), 0);
    ByteAt(s, pos, Spell(c), 1);
  }

  lemma CharacterAt(s: seq<Byte>, pos: nat, bytes: seq<Byte>)
    requires Stands(s, pos, bytes) && IsUtf8Char(bytes)
    ensures Utf8Decode(s, pos).ok && Utf8Decode(s, pos).next == pos + |bytes|
  {
    ByteAt(s, pos, bytes, 0);
    if |bytes| > 1 { ByteAt(s, pos, bytes, 1); }
    if |bytes| > 2 { ByteAt(s, pos, bytes, 2); }
    if |bytes| > 3 { ByteAt(s, pos, bytes, 3); }
    DecodeIs(s, pos);
    Masks(PeekByte(s, pos + 1));
    Masks(PeekByte(s, pos + 2));
    Masks(PeekByte(s, pos + 3));
    hide Utf8Decode, Trans, Stands;
  }

  lemma CharIsRead(s: seq<Byte>, pos: nat, c: Char, validate: bool)
    requires IsChar(c, validate) && Stands(s, pos, Spell(c)) && !NamesLead(c)
    ensures pos < |s| && s[pos] != QUOTE && Round(s, pos, validate) == Found(BytesOf(c), pos + |Spell(c)|)
  {
    hide Hex, Utf8Encode, Utf8Decode;
    match c {
      case Unescaped(bytes) =>
        ByteAt(s, pos, bytes, 0);
        if validate {
          CharacterAt(s, pos, bytes);
          StandsSlice(s, pos, bytes);
        } else {
          assert bytes == [bytes[0]];
        }
      case Escaped(letter) =>
        ByteAt(s, pos, Spell(c), 0);
        ByteAt(s, pos, Spell(c), 1);
      case Coded(digits) => CodedIsEscape(s, pos, c, validate);
    }
  }

  lemma PairIsRead(s: seq<Byte>, pos: nat, lead: Char, trail: Char, validate: bool)
    requires IsChar(lead, validate) && IsChar(trail, validate) && NamesLead(lead) && NamesTrail(trail)
    requires Stands(s, pos, Spell(lead) + Spell(trail))
    ensures pos < |s| && s[pos] != QUOTE
    ensures Round(s, pos, validate) == Found(PairBytes(lead, trail), pos + |Spell(lead)| + |Spell(trail)|)
  {
    hide Hex, Utf8Encode;
    StandsParts(s, pos, Spell(lead), Spell(trail));
    CodedIsEscape(s, pos, lead, validate);
    CodedIsEscape(s, pos + 6, trail, validate);
  }

  lemma SpelledFirst(cs: seq<Char>, end: seq<Byte>)
    requires cs != []
    ensures SpellAll(cs) + end == Spell(cs[0]) + (SpellAll(cs[1..]) + end)
  {
    Regrouped(Spell(cs[0]), SpellAll(cs[1..]), end);
  }

  lemma {:induction false} CharsAreRead(s: seq<Byte>, pos: nat, cs: seq<Char>, validate: bool, out: seq<Byte>)
    requires IsLiteral(s, pos, cs, validate)
    ensures ParseFrom(s, pos, validate, out) == Found(out + Meaning(cs), pos + |SpellAll(cs)| + 1)
    decreases |cs|
  {
    hide Round, Spell, BytesOf, IsChar, NamesLead, NamesTrail, PairBytes, Stands, ParseFrom;
    if cs == [] {
      assert [] + [QUOTE] == [QUOTE] && out + [] == out;
      Ends(s, pos, validate, out);
    } else {
      SpelledFirst(cs, [QUOTE]);
      StandsParts(s, pos, Spell(cs[0]), SpellAll(cs[1..]) + [QUOTE]);
      if NamesLead(cs[0]) {
        PairFirst(s, pos, cs, validate, out);
        CharsAreRead(s, pos + |Spell(cs[0])| + |Spell(cs[1])|, cs[2..], validate, out + PairBytes(cs[0], cs[1]));
        Regrouped(out, PairBytes(cs[0], cs[1]), Meaning(cs[2..]));
        assert cs[1..][1..] == cs[2..];
      } else {
        CharIsRead(s, pos, cs[0], validate);
        OneRound(s, pos, validate, out);
        CharsAreRead(s, pos + |Spell(cs[0])|, cs[1..], validate, out + BytesOf(cs[0]));
        Regrouped(out, BytesOf(cs[0]), Meaning(cs[1..]));
      }
    }
  }

  lemma Ends(s: seq<Byte>, pos: nat, validate: bool, out: seq<Byte>)
    requires Stands(s, pos, [QUOTE])
    ensures ParseFrom(s, pos, validate, out) == Found(out, pos + 1)
  {
    ByteAt(s, pos, [QUOTE], 0);
  }

  lemma PairFirst(s: seq<Byte>, pos: nat, cs: seq<Char>, validate: bool, out: seq<Byte>)
    requires IsLiteral(s, pos, cs, validate) && cs != [] && NamesLead(cs[0])
    ensures StartsPair(cs)
    ensures var next := pos + |Spell(cs[0])| + |Spell(cs[1])|;
            && ParseFrom(s, pos, validate, out) == ParseFrom(s, next, validate, out + PairBytes(cs[0], cs[1]))
            && IsLiteral(s, next, cs[2..], validate)
  {
    hide Round, Spell, IsChar, NamesLead, NamesTrail, PairBytes, Stands, ParseFrom;
    assert NamesTrail(cs[1]);
    var rest := SpellAll(cs[2..]) + [QUOTE];
    SpelledFirst(cs, [QUOTE]);
    SpelledFirst(cs[1..], [QUOTE]);
    assert cs[1..][1..] == cs[2..];
    Regrouped(Spell(cs[0]), Spell(cs[1]), rest);
    StandsParts(s, pos, Spell(cs[0]) + Spell(cs[1]), rest);
    PairIsRead(s, pos, cs[0], cs[1], validate);
    OneRound(s, pos, validate, out);
  }

  // ----- What is read, the grammar allows -----

  /** One round reads a character, or two that name a pair of surrogates. */
  lemma RoundReads(s: seq<Byte>, pos: nat, validate: bool) returns (cs: seq<Char>)
    requires pos < |s| && s[pos] != QUOTE && Round(s, pos, validate).Found?
    ensures AreChars(cs, validate) && Stands(s, pos, SpellAll(cs))
    ensures Round(s, pos, validate).next == pos + |SpellAll(cs)|
    ensures (|cs| == 1 && !NamesLead(cs[0])) || (|cs| == 2 && StartsPair(cs))
  {
    var c := s[pos];
    if c == BACKSLASH && UnescapeLetter(PeekByte(s, pos + 1)) != 0 {
      cs := [Escaped(s[pos + 1])];
      assert SpellAll(cs) == s[pos..pos + 2];
    } else if c == BACKSLASH {
      cs := UnicodeReads(s, pos, validate);
    } else if validate {
      Utf8DecodeAcceptsIff(s, pos);
      cs := [Unescaped(s[pos..Utf8Decode(s, pos).next])];
      assert SpellAll(cs) == s[pos..Utf8Decode(s, pos).next];
    } else {
      cs := [Unescaped([c])];
      assert SpellAll(cs) == s[pos..pos + 1];
    }
  }

  lemma UnicodeReads(s: seq<Byte>, pos: nat, validate: bool) returns (cs: seq<Char>)
    requires PeekByte(s, pos) == BACKSLASH && PeekByte(s, pos + 1) == LETTER_U && Unicode(s, pos).Found?
    ensures AreChars(cs, validate) && Stands(s, pos, SpellAll(cs))
    ensures Unicode(s, pos).next == pos + |SpellAll(cs)|
    ensures (|cs| == 1 && !NamesLead(cs[0])) || (|cs| == 2 && StartsPair(cs))
  {
    hide Hex, Utf8Encode, IsChar, Spell, Stands;
    var unit := FoundUnit(s, pos);
    var c := EscapeReads(s, pos, unit, validate);
    if IsLead(unit) {
      var trail := FoundTrail(s, pos, unit);
      var d := EscapeReads(s, pos + 6, trail, validate);
      cs := [c, d];
      assert cs[1..] == [d] && [d][1..] == [];
      assert SpellAll([d]) == Spell(d) + [] == Spell(d);
      StandsBoth(s, pos, Spell(c), Spell(d));
      assert SpellAll(cs) == Spell(c) + Spell(d);
    } else {
      cs := [c];
      assert SpellAll(cs) == Spell(c);
    }
  }

  lemma EscapeReads(s: seq<Byte>, pos: nat, unit: Unit, validate: bool) returns (c: Char)
    requires IsEscape(s, pos, unit)
    ensures IsChar(c, validate) && Stands(s, pos, Spell(c)) && UnitOf(c) == Some(unit) && |Spell(c)| == 6
  {
    DigitsRead(s, pos + 2, 4);
    c := Coded(s[pos + 2..pos + 6]);
    HexAt(s, pos + 2, c.digits, 4);
    hide Hex;
    assert forall k :: 0 <= k < 4 ==> c.digits[k] == PeekByte(s, pos + 2 + k);
    assert s[pos..pos + 6] == [BACKSLASH, LETTER_U] + c.digits;
  }

  lemma {:induction false} DigitsRead(s: seq<Byte>, pos: nat, n: nat)
    requires Hex(s, pos, n).Some?
    ensures n > 0 ==> pos + n <= |s|
    ensures forall k :: pos <= k < pos + n ==> HexValue(PeekByte(s, k)).Some?
  {
    if n > 0 { DigitsRead(s, pos, n - 1); }
  }

  lemma {:induction false} ParsedIsLiteral(s: seq<Byte>, pos: nat, validate: bool, out: seq<Byte>) returns (cs: seq<Char>)
    requires ParseFrom(s, pos, validate, out).Found?
    ensures IsLiteral(s, pos, cs, validate)
    decreases if pos <= |s| then |s| - pos + 1 else 0
  {
    hide Round, Spell, IsChar, NamesLead, NamesTrail;
    if PeekByte(s, pos) == QUOTE {
      cs := [];
      assert SpellAll(cs) + [QUOTE] == [QUOTE] == s[pos..pos + 1];
    } else {
      OneRound(s, pos, validate, out);
      var r := Round(s, pos, validate);
      var first := RoundReads(s, pos, validate);
      var rest := ParsedIsLiteral(s, r.next, validate, out + r.text);
      cs := first + rest;
      SpelledParts(first, rest);
      StandsBoth(s, pos, SpellAll(first), SpellAll(rest) + [QUOTE]);
      Regrouped(SpellAll(first), SpellAll(rest), [QUOTE]);
      PairedParts(first, rest);
    }
  }

  lemma StandsBoth(s: seq<Byte>, pos: nat, a: seq<Byte>, b: seq<Byte>)
    requires Stands(s, pos, a) && Stands(s, pos + |a|, b)
    ensures Stands(s, pos, a + b)
  {
    assert s[pos..pos + |a + b|] == s[pos..pos + |a|] + s[pos + |a|..pos + |a| + |b|];
  }

  lemma {:induction false} SpelledParts(a: seq<Char>, b: seq<Char>)
    ensures SpellAll(a + b) == SpellAll(a) + SpellAll(b)
  {
    hide Spell;
    if a == [] {
      assert a + b == b;
    } else {
      SpelledParts(a[1..], b);
      assert (a + b)[1..] == a[1..] + b;
      Regrouped(Spell(a[0]), SpellAll(a[1..]), SpellAll(b));
    }
  }

  lemma PairedParts(first: seq<Char>, rest: seq<Char>)
    requires Paired(rest)
    requires (|first| == 1 && !NamesLead(first[0])) || (|first| == 2 && StartsPair(first))
    ensures Paired(first + rest)
  {
    hide UnitOf;
    var cs := first + rest;
    forall k | 0 <= k < |cs| && NamesLead(cs[k]) ensures k + 1 < |cs| && NamesTrail(cs[k + 1]) {
      if k >= |first| { assert cs[k] == rest[k - |first|]; }
    }
  }

  // ----- The main result -----

  /** The reader accepts exactly the literals of the grammar in which every leading surrogate is
      followed by a trailing one, ends behind the closing quote, and delivers what the characters
      stand for. */
  lemma LiteralIsExact(s: seq<Byte>, pos: nat, validate: bool, text: seq<Byte>, next: nat)
    ensures ParseFrom(s, pos, validate, []) == Found(text, next) <==>
            exists cs :: IsLiteral(s, pos, cs, validate) && text == Meaning(cs) && next == pos + |SpellAll(cs)| + 1
  {
    hide IsLiteral, ParseFrom, Meaning;
    if cs :| IsLiteral(s, pos, cs, validate) && text == Meaning(cs) && next == pos + |SpellAll(cs)| + 1 {
      CharsAreRead(s, pos, cs, validate, []);
      assert [] + Meaning(cs) == Meaning(cs);
    }
    if ParseFrom(s, pos, validate, []) == Found(text, next) {
      var cs := ParsedIsLiteral(s, pos, validate, []);
      CharsAreRead(s, pos, cs, validate, []);
      assert [] + Meaning(cs) == Meaning(cs);
    }
  }

  // ----- Whether it is UTF-8 -----

  /** No trailing surrogate without a leading one. */
  predicate NoLoneTrail(cs: seq<Char>) {
    forall k :: 0 <= k < |cs| && NamesTrail(cs[k]) ==> k > 0 && NamesLead(cs[k - 1])
  }

  lemma CharacterPrefix(first: seq<Byte>, rest: seq<Byte>)
    requires IsUtf8Char(first)
    ensures IsUtf8(first + rest) <==> IsUtf8(rest)
  {
    assert |first| >= 1;
    hide IsUtf8, IsUtf8Char, Utf8Decode;
    var all := first + rest;
    assert all[..|first|] == first && all[|first|..] == rest;
    CharIsUnique8(all, |first|);
    IsUtf8Step(all);
  }

  lemma SurrogatePrefix(unit: Unit, rest: seq<Byte>)
    requires IsTrail(unit)
    ensures !IsUtf8(SurrogateBytes(unit) + rest)
  {
    var all := SurrogateBytes(unit) + rest;
    IsUtf8Step(all);
    Utf8DecodeAcceptsIff(all, 0);
    DecodeIs(all, 0);
    hide IsUtf8;
  }

  /** With validation what is delivered is UTF-8 exactly if no trailing surrogate stands alone. */
  lemma {:induction false} MeaningIsUtf8Iff(cs: seq<Char>)
    requires AreChars(cs, true) && Paired(cs)
    ensures IsUtf8(Meaning(cs)) <==> NoLoneTrail(cs)
    decreases |cs|
  {
    hide IsUtf8, IsChar, UnitOf, BytesOf, PairBytes;
    if cs == [] {
      NoBytes();
    } else if NamesLead(cs[0]) {
      assert StartsPair(cs);
      PairIsCharacter(cs[0], cs[1]);
      CharacterPrefix(PairBytes(cs[0], cs[1]), Meaning(cs[2..]));
      MeaningIsUtf8Iff(cs[2..]);
    } else if NamesTrail(cs[0]) {
      CharBytes(cs[0]);
      SurrogatePrefix(UnitOf(cs[0]).value, Meaning(cs[1..]));
    } else {
      CharBytes(cs[0]);
      CharacterPrefix(BytesOf(cs[0]), Meaning(cs[1..]));
      MeaningIsUtf8Iff(cs[1..]);
    }
  }

  lemma PairIsCharacter(lead: Char, trail: Char)
    requires NamesLead(lead) && NamesTrail(trail)
    ensures IsUtf8Char(PairBytes(lead, trail))
  {
    hide UnitOf;
    PairScalar(UnitOf(lead).value, UnitOf(trail).value);
    Parts(JoinPair(UnitOf(lead).value, UnitOf(trail).value));
  }

  lemma CharBytes(c: Char)
    requires IsChar(c, true) && !NamesLead(c)
    ensures if NamesTrail(c) then BytesOf(c) == SurrogateBytes(UnitOf(c).value) else IsUtf8Char(BytesOf(c))
  {
    if c.Coded? {
      CodedNamesUnit(c, true);
      if !NamesTrail(c) { Parts(UnitOf(c).value); }
    }
  }
}
