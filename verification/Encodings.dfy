/** UTF-8 and UTF-16 as the JSON library codes them (thirdparty/rapidjson/encodings.h:102-220,
    276-322), against the grammars of section 4 of RFC 3629 and section 2 of RFC 2781. */
module Encodings {
  import opened Core

  type Byte = x: nat | x < 256 witness 0
  type Unit = x: nat | x < 0x1_0000 witness 0

  /** Code points that may be encoded: no surrogates. */
  predicate IsScalar(cp: nat) { cp <= 0x10FFFF && !(0xD800 <= cp <= 0xDFFF) }

  // ----- Encoding -----

  /** `static_cast<Ch>` keeps the low byte. */
  function Utf8Encode(cp: nat): (r: seq<Byte>)
    requires cp <= 0x10FFFF
    ensures 1 <= |r| <= 4
  {
    if cp <= 0x7F then [cp]
    else if cp <= 0x7FF then [0xC0 + cp / 64, 0x80 + cp % 64]
    else if cp <= 0xFFFF then [0xE0 + cp / 4096, 0x80 + (cp / 64) % 64, 0x80 + cp % 64]
    else [0xF0 + cp / 262144, 0x80 + (cp / 4096) % 64, 0x80 + (cp / 64) % 64, 0x80 + cp % 64]
  }

  function Utf16Encode(cp: nat): (r: seq<Unit>)
    requires IsScalar(cp)
    ensures 1 <= |r| <= 2
  {
    if cp <= 0xFFFF then [cp]
    else [0xD800 + (cp - 0x1_0000) / 1024, 0xDC00 + (cp - 0x1_0000) % 1024]
  }

  // ----- Decoding -----

  /** The classes of bytes: continuation bytes have one bit each, lead bytes a number below 16. */
  function GetRange(c: Byte): bv8 {
    if c < 0x80 then 0
    else if c < 0x90 then 0x10
    else if c < 0xA0 then 0x40
    else if c < 0xC0 then 0x20
    else if c < 0xC2 then 8
    else if c < 0xE0 then 2
    else if c == 0xE0 then 10
    else if c == 0xED then 4
    else if c < 0xF0 then 3
    else if c == 0xF0 then 11
    else if c < 0xF4 then 6
    else if c == 0xF4 then 5
    else 8
  }

  predicate Trans(c: Byte, mask: bv8) { GetRange(c) & mask != 0 }

  /** Past the end there is the terminator. */
  function PeekByte(s: seq<Byte>, pos: nat): Byte { if pos < |s| then s[pos] else 0 }

  /** Whether the sequence was accepted, the code point, and the position after what was taken. */
  datatype Decoded = Decoded(ok: bool, codepoint: nat, next: nat)

  /** The first continuation byte may be restricted, the others are any. */
  function Tails(s: seq<Byte>, pos: nat, lead: nat, mask: bv8, count: nat): Decoded
    decreases count
  {
    if count == 0 then Decoded(true, lead, pos) else
      var c := PeekByte(s, pos);
      var rest := Tails(s, pos + 1, lead * 64 + c % 64, 0x70, count - 1);
      Decoded(Trans(c, mask) && rest.ok, rest.codepoint, rest.next)
  }

  function Utf8Decode(s: seq<Byte>, pos: nat): Decoded {
    var c := PeekByte(s, pos);
    if c < 0x80 then Decoded(true, c, pos + 1) else
      match GetRange(c)
      case 2 => Tails(s, pos + 1, c % 64, 0x70, 1)
      case 3 => Tails(s, pos + 1, c % 32, 0x70, 2)
      case 4 => Tails(s, pos + 1, c % 16, 0x50, 2)
      case 5 => Tails(s, pos + 1, c % 8, 0x10, 3)
      case 6 => Tails(s, pos + 1, c % 4, 0x70, 3)
      case 10 => Tails(s, pos + 1, 0, 0x20, 2)
      case 11 => Tails(s, pos + 1, 0, 0x60, 3)
      case _ => Decoded(false, 0, pos + 1)
  }

  function PeekUnit(s: seq<Unit>, pos: nat): Unit { if pos < |s| then s[pos] else 0 }

  function Utf16Decode(s: seq<Unit>, pos: nat): Decoded {
    var c := PeekUnit(s, pos);
    if c < 0xD800 || c > 0xDFFF then Decoded(true, c, pos + 1)
    else if c <= 0xDBFF then
      var d := PeekUnit(s, pos + 1);
      Decoded(0xDC00 <= d <= 0xDFFF, (c % 1024) * 1024 + d % 1024 + 0x1_0000, pos + 2)
    else Decoded(false, 0, pos + 1)
  }

  // ----- The grammars -----

  predicate Tail(c: Byte) { 0x80 <= c <= 0xBF }

  /** One character, by the syntax of UTF-8 byte sequences. */
  predicate IsUtf8Char(s: seq<Byte>) {
    || (|s| == 1 && s[0] <= 0x7F)
    || (|s| == 2 && 0xC2 <= s[0] <= 0xDF && Tail(s[1]))
    || (|s| == 3 && Tail(s[2]) &&
        (|| (s[0] == 0xE0 && 0xA0 <= s[1] <= 0xBF)
         || (0xE1 <= s[0] <= 0xEC && Tail(s[1]))
         || (s[0] == 0xED && 0x80 <= s[1] <= 0x9F)
         || (0xEE <= s[0] <= 0xEF && Tail(s[1]))))
    || (|s| == 4 && Tail(s[2]) && Tail(s[3]) &&
        (|| (s[0] == 0xF0 && 0x90 <= s[1] <= 0xBF)
         || (0xF1 <= s[0] <= 0xF3 && Tail(s[1]))
         || (s[0] == 0xF4 && 0x80 <= s[1] <= 0x8F)))
  }

  /** One character of UTF-16: a unit that is no surrogate, or a high and a low one. */
  predicate IsUtf16Char(s: seq<Unit>) {
    || (|s| == 1 && !(0xD800 <= s[0] <= 0xDFFF))
    || (|s| == 2 && 0xD800 <= s[0] <= 0xDBFF && 0xDC00 <= s[1] <= 0xDFFF)
  }

  // ----- Decoding is exact -----

  lemma Masks(c: Byte)
    ensures Trans(c, 0x70) <==> 0x80 <= c <= 0xBF
    ensures Trans(c, 0x50) <==> 0x80 <= c <= 0x9F
    ensures Trans(c, 0x10) <==> 0x80 <= c <= 0x8F
    ensures Trans(c, 0x20) <==> 0xA0 <= c <= 0xBF
    ensures Trans(c, 0x60) <==> 0x90 <= c <= 0xBF
  {
  }

  lemma TailsAre(s: seq<Byte>, pos: nat, lead: nat, mask: bv8, count: nat)
    requires 1 <= count <= 3
    ensures var c, d, e := PeekByte(s, pos), PeekByte(s, pos + 1), PeekByte(s, pos + 2);
            Tails(s, pos, lead, mask, count) ==
            Decoded(Trans(c, mask) && (count > 1 ==> Trans(d, 0x70)) && (count > 2 ==> Trans(e, 0x70)),
                    if count == 1 then lead * 64 + c % 64
                    else if count == 2 then (lead * 64 + c % 64) * 64 + d % 64
                    else ((lead * 64 + c % 64) * 64 + d % 64) * 64 + e % 64,
                    pos + count)
  {
    hide Trans;
    assert Tails(s, pos + count, 0, 0x70, 0).ok;
  }

  /** The decoder accepts exactly the characters of the grammar. */
  lemma Utf8DecodeAcceptsIff(s: seq<Byte>, pos: nat)
    requires pos < |s|
    ensures var d := Utf8Decode(s, pos);
            && pos < d.next <= pos + 4
            && (d.ok <==> d.next <= |s| && IsUtf8Char(s[pos..d.next]))
  {
    Masks(PeekByte(s, pos + 1));
    Masks(PeekByte(s, pos + 2));
    Masks(PeekByte(s, pos + 3));
    DecodeIs(s, pos);
    hide Tails, Trans;
  }

  /** What the class of the lead byte decides. */
  lemma DecodeIs(s: seq<Byte>, pos: nat)
    requires pos < |s|
    ensures var c, c1, c2, c3 := s[pos], PeekByte(s, pos + 1), PeekByte(s, pos + 2), PeekByte(s, pos + 3);
            Utf8Decode(s, pos) ==
            if c < 0x80 then Decoded(true, c, pos + 1)
            else if c < 0xC2 || c > 0xF4 then Decoded(false, 0, pos + 1)
            else if c < 0xE0 then Decoded(Trans(c1, 0x70), (c % 64) * 64 + c1 % 64, pos + 2)
            else if c < 0xF0 then
              Decoded(Trans(c1, if c == 0xE0 then 0x20 else if c == 0xED then 0x50 else 0x70) && Trans(c2, 0x70),
                      ((c % 16) * 64 + c1 % 64) * 64 + c2 % 64, pos + 3)
            else
              Decoded(Trans(c1, if c == 0xF0 then 0x60 else if c == 0xF4 then 0x10 else 0x70) && Trans(c2, 0x70) && Trans(c3, 0x70),
                      (((c % 8) * 64 + c1 % 64) * 64 + c2 % 64) * 64 + c3 % 64, pos + 4)
  {
    hide Tails, Trans;
    var c := s[pos];
    if c >= 0xF0 {
      LongDecodeIs(s, pos);
    } else if c >= 0xE0 {
      MediumDecodeIs(s, pos);
    } else if c >= 0xC2 {
      TailsAre(s, pos + 1, c % 64, 0x70, 1);
    }
  }

  lemma MediumDecodeIs(s: seq<Byte>, pos: nat)
    requires pos < |s| && 0xE0 <= s[pos] < 0xF0
    ensures var c, c1, c2 := s[pos], PeekByte(s, pos + 1), PeekByte(s, pos + 2);
            Utf8Decode(s, pos) ==
            Decoded(Trans(c1, if c == 0xE0 then 0x20 else if c == 0xED then 0x50 else 0x70) && Trans(c2, 0x70),
                    ((c % 16) * 64 + c1 % 64) * 64 + c2 % 64, pos + 3)
  {
    hide Tails, Trans;
    var c := s[pos];
    if c == 0xE0 {
      TailsAre(s, pos + 1, 0, 0x20, 2);
    } else if c == 0xED {
      TailsAre(s, pos + 1, c % 16, 0x50, 2);
    } else {
      TailsAre(s, pos + 1, c % 32, 0x70, 2);
    }
  }

  lemma LongDecodeIs(s: seq<Byte>, pos: nat)
    requires pos < |s| && 0xF0 <= s[pos]
    ensures var c, c1, c2, c3 := s[pos], PeekByte(s, pos + 1), PeekByte(s, pos + 2), PeekByte(s, pos + 3);
            Utf8Decode(s, pos) ==
            if c > 0xF4 then Decoded(false, 0, pos + 1)
            else
              Decoded(Trans(c1, if c == 0xF0 then 0x60 else if c == 0xF4 then 0x10 else 0x70) && Trans(c2, 0x70) && Trans(c3, 0x70),
                      (((c % 8) * 64 + c1 % 64) * 64 + c2 % 64) * 64 + c3 % 64, pos + 4)
  {
    hide Tails, Trans;
    var c := s[pos];
    if c == 0xF0 {
      TailsAre(s, pos + 1, 0, 0x60, 3);
    } else if c < 0xF4 {
      TailsAre(s, pos + 1, c % 4, 0x70, 3);
    } else if c == 0xF4 {
      TailsAre(s, pos + 1, c % 8, 0x10, 3);
    }
  }

  /** Two, three and four bytes, as code point and as bytes. */
  lemma Bytes2(c: Byte, d: Byte)
    requires 0xC2 <= c <= 0xDF && Tail(d)
    ensures var cp := (c % 64) * 64 + d % 64; IsScalar(cp) && Utf8Encode(cp) == [c, d]
  {
  }

  lemma Bytes3(c: Byte, d: Byte, e: Byte)
    requires 0xE0 <= c <= 0xEF && Tail(d) && Tail(e) && (c == 0xE0 ==> d >= 0xA0) && (c == 0xED ==> d <= 0x9F)
    ensures var cp := ((c % 16) * 64 + d % 64) * 64 + e % 64; IsScalar(cp) && Utf8Encode(cp) == [c, d, e]
  {
    var cp := ((c % 16) * 64 + d % 64) * 64 + e % 64;
    assert c % 16 == c - 0xE0 && d % 64 == d - 0x80 && e % 64 == e - 0x80;
    assert cp / 64 == (c - 0xE0) * 64 + (d - 0x80);
  }

  lemma Bytes4(c: Byte, d: Byte, e: Byte, f: Byte)
    requires 0xF0 <= c <= 0xF4 && Tail(d) && Tail(e) && Tail(f) && (c == 0xF0 ==> d >= 0x90) && (c == 0xF4 ==> d <= 0x8F)
    ensures var cp := (((c % 8) * 64 + d % 64) * 64 + e % 64) * 64 + f % 64; IsScalar(cp) && Utf8Encode(cp) == [c, d, e, f]
  {
    hide Utf8Encode, IsScalar;
    LeadBits(c);
    TailBits(d);
    TailBits(e);
    TailBits(f);
    Encode4(c - 0xF0, d - 0x80, e - 0x80, f - 0x80);
  }

  lemma LeadBits(c: Byte)
    requires 0xF0 <= c <= 0xF7
    ensures c % 8 == c - 0xF0
  {
  }

  lemma TailBits(c: Byte)
    requires Tail(c)
    ensures c % 64 == c - 0x80
  {
  }

  lemma Encode4(a: nat, b: nat, c: nat, d: nat)
    requires a <= 4 && b < 64 && c < 64 && d < 64 && (a == 0 ==> b >= 0x10) && (a == 4 ==> b <= 0xF)
    ensures var cp := ((a * 64 + b) * 64 + c) * 64 + d;
            IsScalar(cp) && Utf8Encode(cp) == [0xF0 + a, 0x80 + b, 0x80 + c, 0x80 + d]
  {
    Base64(a, b, c, d);
  }

  /** Digits to the base 64. */
  lemma Base64(a: nat, b: nat, c: nat, d: nat)
    requires b < 64 && c < 64 && d < 64
    ensures var x := ((a * 64 + b) * 64 + c) * 64 + d;
            && x / 262144 == a && (x / 4096) % 64 == b && (x / 64) % 64 == c && x % 64 == d && x / 4096 == a * 64 + b
  {
    var x := ((a * 64 + b) * 64 + c) * 64 + d;
    assert x / 64 == (a * 64 + b) * 64 + c;
    assert x / 64 / 64 == a * 64 + b;
    NestedDivision(x);
  }

  lemma NestedDivision(x: nat)
    ensures x / 4096 == x / 64 / 64 && x / 262144 == x / 64 / 64 / 64
  {
  }

  /** What is accepted is the encoding of a scalar value, and that value is delivered. */
  lemma Utf8DecodeInverts(s: seq<Byte>, pos: nat)
    requires pos < |s| && Utf8Decode(s, pos).ok
    ensures var d := Utf8Decode(s, pos);
            pos < d.next <= |s| && IsScalar(d.codepoint) && Utf8Encode(d.codepoint) == s[pos..d.next]
  {
    Utf8DecodeAcceptsIff(s, pos);
    DecodeIs(s, pos);
    var c := s[pos];
    hide Utf8Decode, Trans, Utf8Encode;
    var t := s[pos..Utf8Decode(s, pos).next];
    if c < 0x80 {
      assert t == [c] == Utf8Encode(c) by { OneByte(c); }
    } else if c < 0xE0 {
      assert t == [c, t[1]];
      Bytes2(c, t[1]);
    } else if c < 0xF0 {
      assert t == [c, t[1], t[2]];
      Bytes3(c, t[1], t[2]);
    } else {
      assert t == [c, t[1], t[2], t[3]];
      Bytes4(c, t[1], t[2], t[3]);
    }
  }

  lemma OneByte(c: Byte)
    requires c < 0x80
    ensures Utf8Encode(c) == [c]
  {
  }

  /** Every scalar value is encoded as a character, which decodes to it, whatever follows. */
  lemma Utf8EncodeInverts(cp: nat, s: seq<Byte>, pos: nat)
    requires IsScalar(cp) && pos + |Utf8Encode(cp)| <= |s| && s[pos..pos + |Utf8Encode(cp)|] == Utf8Encode(cp)
    ensures IsUtf8Char(Utf8Encode(cp))
    ensures Utf8Decode(s, pos) == Decoded(true, cp, pos + |Utf8Encode(cp)|)
  {
    var e := Utf8Encode(cp);
    assert forall k :: 0 <= k < |e| ==> s[pos + k] == s[pos..pos + |e|][k] == e[k];
    Parts(cp);
    hide Utf8Encode, Utf8Decode, Trans;
    DecodeIs(s, pos);
    Masks(PeekByte(s, pos + 1));
    Masks(PeekByte(s, pos + 2));
    Masks(PeekByte(s, pos + 3));
  }

  /** The bytes of a scalar value, and the value of the bytes. */
  lemma Parts(cp: nat)
    requires IsScalar(cp)
    ensures IsUtf8Char(Utf8Encode(cp)) && JoinBytes(Utf8Encode(cp)) == cp
  {
    NestedDivision(cp);
    if cp <= 0x7FF {
    } else if cp <= 0xFFFF {
      ThreeParts(cp);
    } else {
      FourParts(cp);
    }
  }

  function JoinBytes(s: seq<Byte>): nat
    requires 1 <= |s| <= 4
  {
    var c: nat := s[0];
    if |s| == 1 then c
    else if |s| == 2 then (c % 64) * 64 + s[1] % 64
    else if |s| == 3 then ((c % 16) * 64 + s[1] % 64) * 64 + s[2] % 64
    else (((c % 8) * 64 + s[1] % 64) * 64 + s[2] % 64) * 64 + s[3] % 64
  }

  lemma ThreeParts(cp: nat)
    requires 0x800 <= cp <= 0xFFFF && IsScalar(cp)
    ensures IsUtf8Char(Utf8Encode(cp)) && JoinBytes(Utf8Encode(cp)) == cp
  {
    var a, b, c := cp / 4096, (cp / 64) % 64, cp % 64;
    NestedDivision(cp);
    assert cp == (a * 64 + b) * 64 + c;
    assert (0xE0 + a) % 16 == a && (0x80 + b) % 64 == b && (0x80 + c) % 64 == c;
  }

  lemma FourParts(cp: nat)
    requires 0x1_0000 <= cp && IsScalar(cp)
    ensures IsUtf8Char(Utf8Encode(cp)) && JoinBytes(Utf8Encode(cp)) == cp
  {
    var a, b, c, d := cp / 262144, (cp / 4096) % 64, (cp / 64) % 64, cp % 64;
    NestedDivision(cp);
    assert cp == ((a * 64 + b) * 64 + c) * 64 + d;
    assert a <= 4;
    assert (0xF0 + a) % 8 == a && (0x80 + b) % 64 == b && (0x80 + c) % 64 == c && (0x80 + d) % 64 == d;
  }

  lemma Utf16DecodeInverts(s: seq<Unit>, pos: nat)
    requires pos < |s|
    ensures var d := Utf16Decode(s, pos);
            && pos < d.next <= pos + 2
            && (d.ok <==> d.next <= |s| && IsUtf16Char(s[pos..d.next]))
            && (d.ok ==> IsScalar(d.codepoint) && Utf16Encode(d.codepoint) == s[pos..d.next])
  {
  }

  lemma Utf16EncodeInverts(cp: nat, s: seq<Unit>, pos: nat)
    requires IsScalar(cp) && pos + |Utf16Encode(cp)| <= |s| && s[pos..pos + |Utf16Encode(cp)|] == Utf16Encode(cp)
    ensures Utf16Decode(s, pos) == Decoded(true, cp, pos + |Utf16Encode(cp)|)
  {
    var e := Utf16Encode(cp);
    assert forall k :: 0 <= k < |e| ==> s[pos + k] == e[k];
  }

  // ----- Whole strings -----

  ghost predicate IsUtf8(s: seq<Byte>) {
    s == [] || exists n :: 1 <= n <= |s| && IsUtf8Char(s[..n]) && IsUtf8(s[n..])
  }

  ghost predicate IsUtf16(s: seq<Unit>) {
    s == [] || exists n :: 1 <= n <= |s| && IsUtf16Char(s[..n]) && IsUtf16(s[n..])
  }

  predicate AreScalars(cps: seq<nat>) { forall k :: 0 <= k < |cps| ==> IsScalar(cps[k]) }

  function EncodeAll8(cps: seq<nat>): seq<Byte>
    requires AreScalars(cps)
  {
    if cps == [] then [] else EncodeAll8(cps[..|cps| - 1]) + Utf8Encode(cps[|cps| - 1])
  }

  function EncodeAll16(cps: seq<nat>): seq<Unit>
    requires AreScalars(cps)
  {
    if cps == [] then [] else EncodeAll16(cps[..|cps| - 1]) + Utf16Encode(cps[|cps| - 1])
  }

  lemma CharIsUnique8(s: seq<Byte>, n: nat)
    requires 1 <= n <= |s| && IsUtf8Char(s[..n])
    ensures Utf8Decode(s, 0).ok && Utf8Decode(s, 0).next == n
  {
    DecodeIs(s, 0);
    Masks(PeekByte(s, 1));
    Masks(PeekByte(s, 2));
    Masks(PeekByte(s, 3));
    hide Utf8Decode, Trans;
  }

  lemma CharIsUnique16(s: seq<Unit>, n: nat)
    requires 1 <= n <= |s| && IsUtf16Char(s[..n])
    ensures Utf16Decode(s, 0).ok && Utf16Decode(s, 0).next == n
  {
  }

  /** All code points, or None at the first sequence that is refused. */
  function DecodeAll8(s: seq<Byte>): (r: Option<seq<nat>>)
    ensures r.Some? ==> AreScalars(r.value)
    decreases |s|
  {
    if s == [] then Some([]) else
      var d := Utf8Decode(s, 0);
      if !d.ok then None else
        Utf8DecodeInverts(s, 0);
        match DecodeAll8(s[d.next..])
        case None => None
        case Some(rest) => Some([d.codepoint] + rest)
  }

  function DecodeAll16(s: seq<Unit>): (r: Option<seq<nat>>)
    ensures r.Some? ==> AreScalars(r.value)
    decreases |s|
  {
    if s == [] then Some([]) else
      Utf16DecodeInverts(s, 0);
      var d := Utf16Decode(s, 0);
      if !d.ok then None else
        match DecodeAll16(s[d.next..])
        case None => None
        case Some(rest) => Some([d.codepoint] + rest)
  }

  lemma {:induction false} EncodeAll8Cons(cp: nat, cps: seq<nat>)
    requires IsScalar(cp) && AreScalars(cps)
    ensures EncodeAll8([cp] + cps) == Utf8Encode(cp) + EncodeAll8(cps)
  {
    hide Utf8Encode;
    if cps == [] {
      assert [cp] + cps == [cp] && [cp][..0] == [];
    } else {
      var init, last := cps[..|cps| - 1], cps[|cps| - 1];
      EncodeAll8Cons(cp, init);
      assert ([cp] + cps)[..|cps|] == [cp] + init;
      assert Utf8Encode(cp) + EncodeAll8(init) + Utf8Encode(last) == Utf8Encode(cp) + (EncodeAll8(init) + Utf8Encode(last));
    }
  }

  lemma {:induction false} EncodeAll16Cons(cp: nat, cps: seq<nat>)
    requires IsScalar(cp) && AreScalars(cps)
    ensures EncodeAll16([cp] + cps) == Utf16Encode(cp) + EncodeAll16(cps)
  {
    hide Utf16Encode;
    if cps == [] {
      assert [cp] + cps == [cp] && [cp][..0] == [];
    } else {
      var init, last := cps[..|cps| - 1], cps[|cps| - 1];
      EncodeAll16Cons(cp, init);
      assert ([cp] + cps)[..|cps|] == [cp] + init;
      assert Utf16Encode(cp) + EncodeAll16(init) + Utf16Encode(last) == Utf16Encode(cp) + (EncodeAll16(init) + Utf16Encode(last));
    }
  }

  /** Exactly the well-formed strings decode, and to their own scalar values. */
  lemma {:induction false} DecodeAll8Exact(s: seq<Byte>)
    ensures DecodeAll8(s).Some? <==> IsUtf8(s)
    ensures DecodeAll8(s).Some? ==> EncodeAll8(DecodeAll8(s).value) == s
    decreases |s|
  {
    hide Utf8Decode, IsUtf8Char, Utf8Encode;
    if s != [] {
      Utf8DecodeAcceptsIff(s, 0);
      var d := Utf8Decode(s, 0);
      if d.ok {
        Utf8DecodeInverts(s, 0);
        assert s[0..d.next] == s[..d.next];
        DecodeAll8Exact(s[d.next..]);
        if DecodeAll8(s[d.next..]).Some? {
          EncodeAll8Cons(d.codepoint, DecodeAll8(s[d.next..]).value);
          assert s == s[..d.next] + s[d.next..];
        }
      }
      if IsUtf8(s) {
        var n :| 1 <= n <= |s| && IsUtf8Char(s[..n]) && IsUtf8(s[n..]);
        CharIsUnique8(s, n);
      }
    }
  }

  lemma {:induction false} DecodeAll16Exact(s: seq<Unit>)
    ensures DecodeAll16(s).Some? <==> IsUtf16(s)
    ensures DecodeAll16(s).Some? ==> EncodeAll16(DecodeAll16(s).value) == s
    decreases |s|
  {
    hide Utf16Decode, IsUtf16Char, Utf16Encode;
    if s != [] {
      Utf16DecodeInverts(s, 0);
      var d := Utf16Decode(s, 0);
      if d.ok {
        assert s[0..d.next] == s[..d.next];
        DecodeAll16Exact(s[d.next..]);
        if DecodeAll16(s[d.next..]).Some? {
          EncodeAll16Cons(d.codepoint, DecodeAll16(s[d.next..]).value);
          assert s == s[..d.next] + s[d.next..];
        }
      }
      if IsUtf16(s) {
        var n :| 1 <= n <= |s| && IsUtf16Char(s[..n]) && IsUtf16(s[n..]);
        CharIsUnique16(s, n);
      }
    }
  }

  lemma {:induction false} EncodedDecodes8(cps: seq<nat>)
    requires AreScalars(cps)
    ensures DecodeAll8(EncodeAll8(cps)) == Some(cps)
  {
    if cps != [] {
      var cp, rest := cps[0], cps[1..];
      assert cps == [cp] + rest;
      EncodeAll8Cons(cp, rest);
      EncodedDecodes8(rest);
      var s := EncodeAll8(cps);
      hide Utf8Encode, Utf8Decode, EncodeAll8;
      assert s[0..|Utf8Encode(cp)|] == Utf8Encode(cp) && s[|Utf8Encode(cp)|..] == EncodeAll8(rest);
      Utf8EncodeInverts(cp, s, 0);
    }
  }

  lemma {:induction false} EncodedDecodes16(cps: seq<nat>)
    requires AreScalars(cps)
    ensures DecodeAll16(EncodeAll16(cps)) == Some(cps)
  {
    if cps != [] {
      var cp, rest := cps[0], cps[1..];
      assert cps == [cp] + rest;
      EncodeAll16Cons(cp, rest);
      EncodedDecodes16(rest);
      var s := EncodeAll16(cps);
      hide Utf16Encode, Utf16Decode, EncodeAll16;
      assert s[0..|Utf16Encode(cp)|] == Utf16Encode(cp) && s[|Utf16Encode(cp)|..] == EncodeAll16(rest);
      Utf16EncodeInverts(cp, s, 0);
    }
  }

  // ----- Transcoding -----

  lemma RestDecodes8(s: seq<Byte>, pos: nat)
    requires pos < |s|
    ensures var d := Utf8Decode(s, pos);
            if d.ok then pos < d.next <= |s| && IsScalar(d.codepoint)
                         && DecodeAll8(s[pos..]) == Prepended([d.codepoint], DecodeAll8(s[d.next..]))
            else DecodeAll8(s[pos..]) == None
  {
    hide Utf8Decode;
    DecodeFrom(s, pos);
    var d := Utf8Decode(s, pos);
    if d.ok {
      Utf8DecodeInverts(s, pos);
      assert s[pos..][d.next - pos..] == s[d.next..];
    }
  }

  lemma RestDecodes16(s: seq<Unit>, pos: nat)
    requires pos < |s|
    ensures var d := Utf16Decode(s, pos);
            if d.ok then pos < d.next <= |s| && IsScalar(d.codepoint)
                         && DecodeAll16(s[pos..]) == Prepended([d.codepoint], DecodeAll16(s[d.next..]))
            else DecodeAll16(s[pos..]) == None
  {
    hide Utf16Decode;
    Decode16From(s, pos);
    Utf16DecodeInverts(s, pos);
    var d := Utf16Decode(s, pos);
    if d.ok {
      assert s[pos..][d.next - pos..] == s[d.next..];
    }
  }

  lemma OneMoreEncoded(done: seq<nat>, cp: nat)
    requires AreScalars(done) && IsScalar(cp)
    ensures AreScalars(done + [cp])
    ensures EncodeAll16(done + [cp]) == EncodeAll16(done) + Utf16Encode(cp)
    ensures EncodeAll8(done + [cp]) == EncodeAll8(done) + Utf8Encode(cp)
  {
    assert (done + [cp])[..|done|] == done;
  }

  /** Of `s`, the part before `pos` is done: its code points are `done`, and `out` encodes them. */
  ghost predicate TranscodingTo16(s: seq<Byte>, pos: nat, out: seq<Unit>, done: seq<nat>) {
    && pos <= |s| && AreScalars(done) && out == EncodeAll16(done)
    && DecodeAll8(s) == Prepended(done, DecodeAll8(s[pos..]))
  }

  lemma StepTo16(s: seq<Byte>, pos: nat, out: seq<Unit>, done: seq<nat>)
    requires TranscodingTo16(s, pos, out, done) && pos < |s|
    ensures var d := Utf8Decode(s, pos);
            if !d.ok then DecodeAll8(s).None?
            else pos < d.next && IsScalar(d.codepoint)
                 && TranscodingTo16(s, d.next, out + Utf16Encode(d.codepoint), done + [d.codepoint])
  {
    hide Utf8Decode, Utf16Encode, DecodeAll8, EncodeAll16;
    RestDecodes8(s, pos);
    var d := Utf8Decode(s, pos);
    if d.ok {
      OneMoreEncoded(done, d.codepoint);
      PrependedTwice(done, d.codepoint, DecodeAll8(s[d.next..]));
    }
  }

  /** Transcodes one code point after the other; None where the source is refused. */
  method TranscodeTo16(s: seq<Byte>) returns (r: Option<seq<Unit>>)
    ensures r.Some? <==> IsUtf8(s)
    ensures r.Some? ==> DecodeAll8(s).Some? && r.value == EncodeAll16(DecodeAll8(s).value)
  {
    DecodeAll8Exact(s);
    var pos, out: seq<Unit> := 0, [];
    ghost var done: seq<nat> := [];
    NothingPrepended(DecodeAll8(s));
    assert s[0..] == s;
    hide Utf8Decode, Utf16Encode, DecodeAll8, EncodeAll16, IsUtf8;
    assert EncodeAll16([]) == [] by { NothingEncoded(); }
    while pos < |s|
      invariant TranscodingTo16(s, pos, out, done)
    {
      StepTo16(s, pos, out, done);
      var d := Utf8Decode(s, pos);
      if !d.ok {
        return None;
      }
      out := out + Utf16Encode(d.codepoint);
      done := done + [d.codepoint];
      pos := d.next;
    }
    NothingLeft8(s);
    assert done + [] == done;
    r := Some(out);
  }

  lemma NothingEncoded()
    ensures EncodeAll16([]) == [] && EncodeAll8([]) == []
  {
  }

  lemma NothingLeft8(s: seq<Byte>)
    ensures DecodeAll8(s[|s|..]) == Some([])
  {
  }

  lemma NothingLeft16(s: seq<Unit>)
    ensures DecodeAll16(s[|s|..]) == Some([])
  {
  }

  ghost function Prepended(done: seq<nat>, rest: Option<seq<nat>>): Option<seq<nat>> {
    match rest
    case None => None
    case Some(cps) => Some(done + cps)
  }

  lemma NothingPrepended(rest: Option<seq<nat>>)
    ensures Prepended([], rest) == rest
  {
    if rest.Some? { assert [] + rest.value == rest.value; }
  }

  lemma PrependedTwice(done: seq<nat>, cp: nat, rest: Option<seq<nat>>)
    ensures Prepended(done, Prepended([cp], rest)) == Prepended(done + [cp], rest)
  {
    if rest.Some? { assert done + ([cp] + rest.value) == done + [cp] + rest.value; }
  }

  /** Decoding in the middle of a string is decoding its rest. */
  lemma DecodeFrom(s: seq<Byte>, pos: nat)
    requires pos < |s|
    ensures var d, e := Utf8Decode(s, pos), Utf8Decode(s[pos..], 0);
            d.ok == e.ok && d.codepoint == e.codepoint && d.next == pos + e.next
  {
    DecodeIs(s, pos);
    DecodeIs(s[pos..], 0);
    assert PeekByte(s, pos + 1) == PeekByte(s[pos..], 1);
    assert PeekByte(s, pos + 2) == PeekByte(s[pos..], 2);
    assert PeekByte(s, pos + 3) == PeekByte(s[pos..], 3);
    hide Utf8Decode, Trans;
  }

  ghost predicate TranscodingTo8(s: seq<Unit>, pos: nat, out: seq<Byte>, done: seq<nat>) {
    && pos <= |s| && AreScalars(done) && out == EncodeAll8(done)
    && DecodeAll16(s) == Prepended(done, DecodeAll16(s[pos..]))
  }

  lemma StepTo8(s: seq<Unit>, pos: nat, out: seq<Byte>, done: seq<nat>)
    requires TranscodingTo8(s, pos, out, done) && pos < |s|
    ensures var d := Utf16Decode(s, pos);
            if !d.ok then DecodeAll16(s).None?
            else pos < d.next && IsScalar(d.codepoint)
                 && TranscodingTo8(s, d.next, out + Utf8Encode(d.codepoint), done + [d.codepoint])
  {
    hide Utf16Decode, Utf8Encode, DecodeAll16, EncodeAll8;
    RestDecodes16(s, pos);
    var d := Utf16Decode(s, pos);
    if d.ok {
      OneMoreEncoded(done, d.codepoint);
      PrependedTwice(done, d.codepoint, DecodeAll16(s[d.next..]));
    }
  }

  method TranscodeTo8(s: seq<Unit>) returns (r: Option<seq<Byte>>)
    ensures r.Some? <==> IsUtf16(s)
    ensures r.Some? ==> DecodeAll16(s).Some? && r.value == EncodeAll8(DecodeAll16(s).value)
  {
    DecodeAll16Exact(s);
    var pos, out: seq<Byte> := 0, [];
    ghost var done: seq<nat> := [];
    NothingPrepended(DecodeAll16(s));
    assert s[0..] == s;
    hide Utf16Decode, Utf8Encode, DecodeAll16, EncodeAll8, IsUtf16;
    assert EncodeAll8([]) == [] by { NothingEncoded(); }
    while pos < |s|
      invariant TranscodingTo8(s, pos, out, done)
    {
      StepTo8(s, pos, out, done);
      var d := Utf16Decode(s, pos);
      if !d.ok {
        return None;
      }
      out := out + Utf8Encode(d.codepoint);
      done := done + [d.codepoint];
      pos := d.next;
    }
    NothingLeft16(s);
    assert done + [] == done;
    r := Some(out);
  }

  lemma Decode16From(s: seq<Unit>, pos: nat)
    requires pos < |s|
    ensures var d, e := Utf16Decode(s, pos), Utf16Decode(s[pos..], 0);
            d.ok == e.ok && d.codepoint == e.codepoint && d.next == pos + e.next
  {
  }

  /** Transcoding there and back is the identity on well-formed strings, from either side. */
  method ThereAndBack(s: seq<Byte>, t: seq<Unit>) returns (s': Option<seq<Byte>>, t': Option<seq<Unit>>)
    ensures s' == if IsUtf8(s) then Some(s) else None
    ensures t' == if IsUtf16(t) then Some(t) else None
  {
    hide DecodeAll8, DecodeAll16, EncodeAll8, EncodeAll16;
    DecodeAll8Exact(s);
    DecodeAll16Exact(t);
    s', t' := None, None;
    var units := TranscodeTo16(s);
    if units.Some? {
      var cps := DecodeAll8(s).value;
      EncodedDecodes16(cps);
      DecodeAll16Exact(units.value);
      s' := TranscodeTo8(units.value);
    }
    var bytes := TranscodeTo8(t);
    if bytes.Some? {
      var cps := DecodeAll16(t).value;
      EncodedDecodes8(cps);
      DecodeAll8Exact(bytes.value);
      t' := TranscodeTo16(bytes.value);
    }
  }
}
