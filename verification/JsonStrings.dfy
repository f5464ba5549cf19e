/** String literals, byte by byte: the writer escapes, the reader undoes it
    (thirdparty/rapidjson/writer.h:345-417, thirdparty/rapidjson/reader.h:754-776, 840-905). */
module JsonStrings {
  import opened Core
  import opened Encodings
  import opened JsonGrammar

  const QUOTE: Byte := 34
  const BACKSLASH: Byte := 92
  const LETTER_U: Byte := 117

  // ----- Writing -----

  /** The letter after the backslash, or 0 for bytes written as they are. */
  function EscapeLetter(c: Byte): Byte {
    if c == QUOTE || c == BACKSLASH then c
    else if c >= 0x20 then 0
    else if c == 8 then 98
    else if c == 9 then 116
    else if c == 10 then 110
    else if c == 12 then 102
    else if c == 13 then 114
    else LETTER_U
  }

  function HexDigit(n: nat): Byte
    requires n < 16
  {
    if n < 10 then 48 + n else 55 + n
  }

  function WriteByte(c: Byte): (r: seq<Byte>)
    ensures r != []
  {
    var e := EscapeLetter(c);
    if e == 0 then [c]
    else if e == LETTER_U then [BACKSLASH, e, 48, 48, HexDigit(c / 16), HexDigit(c % 16)]
    else [BACKSLASH, e]
  }

  function WriteBody(s: seq<Byte>): seq<Byte> {
    if s == [] then [] else WriteByte(s[0]) + WriteBody(s[1..])
  }

  function Literal(s: seq<Byte>): seq<Byte> {
    [QUOTE] + WriteBody(s) + [QUOTE]
  }

  method WriteString(s: seq<Byte>) returns (os: seq<Byte>)
    ensures os == Literal(s)
  {
    hide WriteByte;
    os := [QUOTE];
    assert s[0..] == s;
    for i := 0 to |s|
      invariant os + WriteBody(s[i..]) == [QUOTE] + WriteBody(s)
    {
      assert s[i..][1..] == s[i + 1..];
      ghost var before := os;
      os := PutByte(os, s[i]);
      assert before + WriteByte(s[i]) + WriteBody(s[i + 1..]) == before + (WriteByte(s[i]) + WriteBody(s[i + 1..]));
    }
    os := os + [QUOTE];
  }

  method PutByte(before: seq<Byte>, c: Byte) returns (os: seq<Byte>)
    ensures os == before + WriteByte(c)
  {
    var e := EscapeLetter(c);
    if e != 0 {
      os := before + [BACKSLASH, e];
      if e == LETTER_U {
        os := os + [48, 48];
        os := os + [HexDigit(c / 16), HexDigit(c % 16)];
      }
    } else {
      os := before + [c];
    }
  }

  // ----- Reading -----

  /** The byte for a one-letter escape, or 0. */
  function UnescapeLetter(e: Byte): Byte {
    if e == QUOTE || e == 47 || e == BACKSLASH then e
    else if e == 98 then 8
    else if e == 102 then 12
    else if e == 110 then 10
    else if e == 114 then 13
    else if e == 116 then 9
    else 0
  }

  function HexValue(c: Byte): Option<nat> {
    if 48 <= c <= 57 then Some(c - 48)
    else if 65 <= c <= 70 then Some(c - 55)
    else if 97 <= c <= 102 then Some(c - 87)
    else None
  }

  /** `count` hexadecimal digits. */
  function Hex(s: seq<Byte>, pos: nat, count: nat): Option<nat> {
    if count == 0 then Some(0) else
      match (Hex(s, pos, count - 1), HexValue(PeekByte(s, pos + count - 1)))
      case (Some(high), Some(digit)) => Some(high * 16 + digit)
      case _ => None
  }

  method ParseHex4(s: seq<Byte>, pos: nat) returns (codepoint: Option<nat>)
    ensures codepoint == Hex(s, pos, 4)
    ensures codepoint.Some? ==> codepoint.value < 0x1_0000
  {
    var value: nat := 0;
    var i := 0;
    while i < 4
      invariant i <= 4 && Hex(s, pos, i) == Some(value)
    {
      var c: nat := PeekByte(s, pos + i);
      if HexValue(c).None? {
        MissingDigit(s, pos, i + 1, 4);
        return None;
      }
      value := value * 16 + c;
      if 48 <= c <= 57 {
        value := value - 48;
      } else if 65 <= c <= 70 {
        value := value - 55;
      } else {
        value := value - 87;
      }
      i := i + 1;
    }
    HexFits(s, pos);
    codepoint := Some(value);
  }

  lemma {:induction false} MissingDigit(s: seq<Byte>, pos: nat, i: nat, count: nat)
    requires i <= count && Hex(s, pos, i).None?
    ensures Hex(s, pos, count).None?
    decreases count
  {
    if i < count { MissingDigit(s, pos, i, count - 1); }
  }

  lemma {:induction false} HexFits(s: seq<Byte>, pos: nat)
    ensures Hex(s, pos, 4).Some? ==> Hex(s, pos, 4).value < 0x1_0000
  {
    assert Hex(s, pos, 0) == Some(0);
    assert Hex(s, pos, 1).Some? ==> Hex(s, pos, 1).value < 16;
    assert Hex(s, pos, 2).Some? ==> Hex(s, pos, 2).value < 256;
    assert Hex(s, pos, 3).Some? ==> Hex(s, pos, 3).value < 4096;
  }

  /** A literal up to its closing quote: its bytes and where it ends, or the error. */
  datatype Scan = Found(text: seq<Byte>, next: nat) | Failed(error: ErrorCode)

  /** A `\\u` escape at `pos`: its bytes and what follows. */
  function Unicode(s: seq<Byte>, pos: nat): Scan {
    HexFits(s, pos + 2);
    HexFits(s, pos + 8);
    match Hex(s, pos + 2, 4)
    case None => Failed(StringUnicodeEscapeInvalidHex)
    case Some(lead) =>
      if !(0xD800 <= lead <= 0xDBFF) then Found(Utf8Encode(lead), pos + 6)
      else if PeekByte(s, pos + 6) != BACKSLASH || PeekByte(s, pos + 7) != LETTER_U then Failed(StringUnicodeSurrogateInvalid)
      else
        match Hex(s, pos + 8, 4)
        case None => Failed(StringUnicodeEscapeInvalidHex)
        case Some(trail) =>
          if !(0xDC00 <= trail <= 0xDFFF) then Failed(StringUnicodeSurrogateInvalid)
          else Found(Utf8Encode((lead - 0xD800) * 1024 + (trail - 0xDC00) + 0x1_0000), pos + 12)
  }

  /** One round of the loop: the bytes put and the new position, or the error. */
  function Round(s: seq<Byte>, pos: nat, validate: bool): (r: Scan)
    ensures r.Found? ==> r.next > pos
  {
    var c := PeekByte(s, pos);
    if c == BACKSLASH then
      var e := PeekByte(s, pos + 1);
      if UnescapeLetter(e) != 0 then Found([UnescapeLetter(e)], pos + 2)
      else if e == LETTER_U then Unicode(s, pos)
      else Failed(StringEscapeInvalid)
    else if c < 0x20 then Failed(if c == 0 then StringMissQuotationMark else StringEscapeInvalid)
    else if validate then
      assert pos < |s|;
      Utf8DecodeAcceptsIff(s, pos);
      var d := Utf8Decode(s, pos);
      if d.ok then Found(s[pos..d.next], d.next) else Failed(StringInvalidEncoding)
    else Found([c], pos + 1)
  }

  /** From `pos`, behind the opening quote or inside the literal, with `out` already put. */
  function ParseFrom(s: seq<Byte>, pos: nat, validate: bool, out: seq<Byte>): Scan
    decreases if pos <= |s| then |s| - pos + 1 else 0
  {
    if PeekByte(s, pos) == QUOTE then Found(out, pos + 1)
    else if pos >= |s| then Failed(StringMissQuotationMark)
    else
      match Round(s, pos, validate)
      case Failed(e) => Failed(e)
      case Found(put, next) => ParseFrom(s, next, validate, out + put)
  }

  method ParseStringToStream(s: seq<Byte>, start: nat, validate: bool) returns (r: Scan)
    ensures r == ParseFrom(s, start, validate, [])
  {
    hide Round;
    var pos, os: seq<Byte> := start, [];
    while true
      invariant ParseFrom(s, pos, validate, os) == ParseFrom(s, start, validate, [])
      decreases if pos <= |s| then |s| - pos + 1 else 0
    {
      var c := PeekByte(s, pos);
      if c == QUOTE {
        return Found(os, pos + 1);
      }
      if pos >= |s| {
        return Failed(StringMissQuotationMark);
      }
      var put := ParseOne(s, pos, validate);
      match put {
        case Failed(e) => return Failed(e);
        case Found(bytes, next) =>
          os := os + bytes;
          pos := next;
      }
    }
  }

  /** An escape, a control byte, or a plain character. */
  method ParseOne(s: seq<Byte>, pos: nat, validate: bool) returns (put: Scan)
    ensures put == Round(s, pos, validate)
  {
    var c := PeekByte(s, pos);
    if c == BACKSLASH {
      var e := PeekByte(s, pos + 1);
      if UnescapeLetter(e) != 0 {
        put := Found([UnescapeLetter(e)], pos + 2);
      } else if e == LETTER_U {
        put := ParseUnicode(s, pos);
      } else {
        put := Failed(StringEscapeInvalid);
      }
    } else if c < 0x20 {
      put := Failed(if c == 0 then StringMissQuotationMark else StringEscapeInvalid);
    } else if validate {
      Utf8DecodeAcceptsIff(s, pos);
      var d := Utf8Decode(s, pos);
      put := if d.ok then Found(s[pos..d.next], d.next) else Failed(StringInvalidEncoding);
    } else {
      put := Found([c], pos + 1);
    }
  }

  method ParseUnicode(s: seq<Byte>, pos: nat) returns (put: Scan)
    ensures put == Unicode(s, pos)
  {
    var lead := ParseHex4(s, pos + 2);
    if lead.None? { return Failed(StringUnicodeEscapeInvalidHex); }
    var codepoint := lead.value;
    var next := pos + 6;
    if 0xD800 <= codepoint <= 0xDBFF {
      if PeekByte(s, pos + 6) != BACKSLASH || PeekByte(s, pos + 7) != LETTER_U {
        return Failed(StringUnicodeSurrogateInvalid);
      }
      var trail := ParseHex4(s, pos + 8);
      if trail.None? { return Failed(StringUnicodeEscapeInvalidHex); }
      if trail.value < 0xDC00 || trail.value > 0xDFFF { return Failed(StringUnicodeSurrogateInvalid); }
      codepoint := (codepoint - 0xD800) * 1024 + (trail.value - 0xDC00) + 0x1_0000;
      next := pos + 12;
    }
    put := Found(Utf8Encode(codepoint), next);
  }

  // ----- The round trip -----

  /** The text stands at `pos`. */
  ghost predicate Stands(s: seq<Byte>, pos: nat, text: seq<Byte>) {
    pos + |text| <= |s| && s[pos..pos + |text|] == text
  }

  lemma StandsParts(s: seq<Byte>, pos: nat, a: seq<Byte>, b: seq<Byte>)
    requires Stands(s, pos, a + b)
    ensures Stands(s, pos, a) && Stands(s, pos + |a|, b)
  {
    var all := s[pos..pos + |a + b|];
    assert s[pos..pos + |a|] == all[..|a|] == a;
    assert s[pos + |a|..pos + |a| + |b|] == all[|a|..] == b;
  }

  lemma ByteAt(s: seq<Byte>, pos: nat, text: seq<Byte>, k: nat)
    requires Stands(s, pos, text) && k < |text|
    ensures pos + k < |s| && s[pos + k] == text[k]
  {
    assert s[pos..pos + |text|][k] == s[pos + k];
  }

  lemma HexRoundTrip(n: nat)
    requires n < 16
    ensures HexValue(HexDigit(n)) == Some(n)
  {
  }

  /** A byte that is escaped, or below 0x80, is read back by one round. */
  lemma ByteIsRead(s: seq<Byte>, pos: nat, c: Byte, validate: bool)
    requires Stands(s, pos, WriteByte(c)) && (c < 0x80 || !validate)
    ensures Round(s, pos, validate) == Found([c], pos + |WriteByte(c)|)
    ensures PeekByte(s, pos) != QUOTE
  {
    var text := WriteByte(c);
    ByteAt(s, pos, text, 0);
    if EscapeLetter(c) == LETTER_U {
      ControlIsRead(s, pos, c);
    } else if EscapeLetter(c) != 0 {
      ByteAt(s, pos, text, 1);
    } else if validate {
      DecodeIs(s, pos);
      assert s[pos..pos + 1] == [c];
    }
  }

  lemma ControlIsRead(s: seq<Byte>, pos: nat, c: Byte)
    requires EscapeLetter(c) == LETTER_U && Stands(s, pos, WriteByte(c))
    ensures PeekByte(s, pos) == BACKSLASH && PeekByte(s, pos + 1) == LETTER_U
    ensures Unicode(s, pos) == Found([c], pos + 6)
  {
    var text := WriteByte(c);
    ByteAt(s, pos, text, 0);
    ByteAt(s, pos, text, 1);
    ByteAt(s, pos, text, 2);
    ByteAt(s, pos, text, 3);
    ByteAt(s, pos, text, 4);
    ByteAt(s, pos, text, 5);
    HexRoundTrip(0);
    HexRoundTrip(c / 16);
    HexRoundTrip(c % 16);
    assert Hex(s, pos + 2, 0) == Some(0);
    assert Hex(s, pos + 2, 1) == Some(0);
    assert Hex(s, pos + 2, 2) == Some(0);
    assert Hex(s, pos + 2, 3) == Some(c / 16);
    assert Hex(s, pos + 2, 4) == Some((c / 16) * 16 + c % 16);
  }

  /** What is written for any bytes, NUL and control bytes included, is read back as the same bytes. */
  lemma {:induction false} BodyIsRead(s: seq<Byte>, pos: nat, bytes: seq<Byte>, out: seq<Byte>)
    requires Stands(s, pos, WriteBody(bytes) + [QUOTE])
    ensures ParseFrom(s, pos, false, out) == Found(out + bytes, pos + |WriteBody(bytes)| + 1)
    decreases |bytes|
  {
    hide Round, WriteByte;
    if bytes == [] {
      ByteAt(s, pos, [QUOTE], 0);
      assert out + [] == out;
    } else {
      var text, later := WriteByte(bytes[0]), WriteBody(bytes[1..]) + [QUOTE];
      assert WriteBody(bytes) + [QUOTE] == text + later;
      StandsParts(s, pos, text, later);
      ByteIsRead(s, pos, bytes[0], false);
      ByteAt(s, pos, text, 0);
      BodyIsRead(s, pos + |text|, bytes[1..], out + [bytes[0]]);
      assert out + [bytes[0]] + bytes[1..] == out + bytes;
    }
  }

  // ----- With validation -----

  lemma IsUtf8Step(bytes: seq<Byte>)
    requires bytes != []
    ensures var d := Utf8Decode(bytes, 0);
            && d.next > 0 && (d.ok ==> d.next <= |bytes|)
            && (IsUtf8(bytes) <==> d.ok && IsUtf8(bytes[d.next..]))
  {
    hide Utf8Decode, IsUtf8Char;
    Utf8DecodeAcceptsIff(bytes, 0);
    var d := Utf8Decode(bytes, 0);
    if d.ok { assert bytes[0..d.next] == bytes[..d.next]; }
    if IsUtf8(bytes) {
      var n :| 1 <= n <= |bytes| && IsUtf8Char(bytes[..n]) && IsUtf8(bytes[n..]);
      CharIsUnique8(bytes, n);
    }
  }

  lemma HighWritten(c: Byte)
    requires c >= 0x80
    ensures WriteByte(c) == [c]
  {
  }

  lemma BodyOf(s: seq<Byte>)
    requires s != []
    ensures WriteBody(s) == WriteByte(s[0]) + WriteBody(s[1..])
  {
  }

  lemma HeadAndTail<T>(s: seq<T>, rest: seq<T>)
    requires s != []
    ensures [s[0]] + (s[1..] + rest) == s + rest
  {
  }

  predicate AllHigh(bytes: seq<Byte>) { forall i :: 0 <= i < |bytes| ==> bytes[i] >= 0x80 }

  /** Bytes above 0x7F are written as they are. */
  lemma {:induction false} HighPrefix(high: seq<Byte>, rest: seq<Byte>)
    requires AllHigh(high)
    ensures WriteBody(high + rest) == high + WriteBody(rest)
  {
    if high == [] {
      assert high + rest == rest;
    } else {
      HighPrefix(high[1..], rest);
      HighWritten(high[0]);
      BodyOf(high + rest);
      hide WriteBody, WriteByte, AllHigh;
      assert (high + rest)[1..] == high[1..] + rest;
      HeadAndTail(high, WriteBody(rest));
    }
  }

  /** What follows in the text: the next byte, or one that continues no character. */
  lemma FirstWritten(rest: seq<Byte>)
    ensures var first := (WriteBody(rest) + [QUOTE])[0];
            if rest != [] && rest[0] >= 0x80 then first == rest[0] else first < 0x80
  {
    if rest != [] { assert WriteBody(rest)[0] == WriteByte(rest[0])[0]; }
  }

  /** After `k` bytes above 0x7F the text goes on with the next one, or with a byte that continues
      no character. */
  lemma SameTail(s: seq<Byte>, pos: nat, bytes: seq<Byte>, k: nat)
    requires Stands(s, pos, WriteBody(bytes) + [QUOTE]) && k <= |bytes| && AllHigh(bytes[..k])
    ensures if PeekByte(bytes, k) >= 0x80 then PeekByte(s, pos + k) == PeekByte(bytes, k) else PeekByte(s, pos + k) < 0x80
    ensures Stands(s, pos, bytes[..k]) && Stands(s, pos + k, WriteBody(bytes[k..]) + [QUOTE])
  {
    hide WriteBody, Stands, AllHigh;
    var high, rest := bytes[..k], bytes[k..];
    assert bytes == high + rest;
    HighPrefix(high, rest);
    Behind(s, pos, high, WriteBody(rest));
    assert k < |bytes| ==> rest != [] && rest[0] == bytes[k];
    FirstWritten(rest);
  }

  lemma Behind(s: seq<Byte>, pos: nat, high: seq<Byte>, body: seq<Byte>)
    requires Stands(s, pos, high + body + [QUOTE])
    ensures Stands(s, pos, high) && Stands(s, pos + |high|, body + [QUOTE])
    ensures PeekByte(s, pos + |high|) == (body + [QUOTE])[0]
  {
    assert high + body + [QUOTE] == high + (body + [QUOTE]);
    StandsParts(s, pos, high, body + [QUOTE]);
    ByteAt(s, pos + |high|, body + [QUOTE], 0);
  }

  /** A byte above 0x7F starts a character in the text exactly if it does in the bytes. */
  lemma SameCharacter(s: seq<Byte>, pos: nat, bytes: seq<Byte>)
    requires Stands(s, pos, WriteBody(bytes) + [QUOTE]) && bytes != [] && bytes[0] >= 0x80
    ensures var d, e := Utf8Decode(s, pos), Utf8Decode(bytes, 0);
            && pos < |s| && s[pos] == bytes[0] && d.ok == e.ok && d.next == pos + e.next
            && (e.ok ==> forall i :: 0 <= i < e.next ==> PeekByte(bytes, i) >= 0x80)
  {
    hide WriteBody, Stands, Utf8Decode, Trans;
    SameTail(s, pos, bytes, 0);
    SameTail(s, pos, bytes, 1);
    var b1, b2 := PeekByte(bytes, 1), PeekByte(bytes, 2);
    if b1 >= 0x80 {
      SameTail(s, pos, bytes, 2);
      if b2 >= 0x80 { SameTail(s, pos, bytes, 3); }
    }
    DecodeIs(s, pos);
    DecodeIs(bytes, 0);
    Masks(b1);
    Masks(b2);
    Masks(PeekByte(bytes, 3));
    Masks(PeekByte(s, pos + 1));
    Masks(PeekByte(s, pos + 2));
    Masks(PeekByte(s, pos + 3));
  }

  lemma HighIsRead(s: seq<Byte>, pos: nat, bytes: seq<Byte>)
    requires Stands(s, pos, WriteBody(bytes) + [QUOTE]) && bytes != [] && bytes[0] >= 0x80
    ensures var d := Utf8Decode(bytes, 0);
            && PeekByte(s, pos) != QUOTE && pos < |s|
            && (if d.ok then d.next <= |bytes| && Round(s, pos, true) == Found(bytes[..d.next], pos + d.next)
                else Round(s, pos, true) == Failed(StringInvalidEncoding))
            && (d.ok ==> Stands(s, pos + d.next, WriteBody(bytes[d.next..]) + [QUOTE])
                         && WriteBody(bytes) == bytes[..d.next] + WriteBody(bytes[d.next..]))
  {
    hide Utf8Decode, WriteBody, Stands;
    SameCharacter(s, pos, bytes);
    Utf8DecodeAcceptsIff(bytes, 0);
    var d := Utf8Decode(bytes, 0);
    if d.ok {
      SameTail(s, pos, bytes, d.next);
      HighPrefix(bytes[..d.next], bytes[d.next..]);
      assert bytes == bytes[..d.next] + bytes[d.next..];
      StandsSlice(s, pos, bytes[..d.next]);
    }
  }

  lemma StandsSlice(s: seq<Byte>, pos: nat, text: seq<Byte>)
    requires Stands(s, pos, text)
    ensures pos + |text| <= |s| && s[pos..pos + |text|] == text
  {
  }

  /** With validation, what is read back is the same bytes if they are UTF-8, and else an error. */
  lemma {:induction false} ValidatedIsRead(s: seq<Byte>, pos: nat, bytes: seq<Byte>, out: seq<Byte>)
    requires Stands(s, pos, WriteBody(bytes) + [QUOTE])
    ensures ParseFrom(s, pos, true, out) ==
            if IsUtf8(bytes) then Found(out + bytes, pos + |WriteBody(bytes)| + 1) else Failed(StringInvalidEncoding)
    decreases |bytes|
  {
    hide ParseFrom, Round, WriteByte, Utf8Decode, IsUtf8, WriteBody, Stands;
    if bytes == [] {
      NothingIsRead(s, pos, out);
    } else {
      FirstCharacter(s, pos, bytes);
      OneRound(s, pos, true, out);
      var d := Utf8Decode(bytes, 0);
      if d.ok {
        var first, rest := bytes[..d.next], bytes[d.next..];
        ValidatedIsRead(s, pos + |WriteBody(bytes)| - |WriteBody(rest)|, rest, out + first);
        assert out + first + rest == out + bytes;
      }
    }
  }

  lemma NothingIsRead(s: seq<Byte>, pos: nat, out: seq<Byte>)
    requires Stands(s, pos, WriteBody([]) + [QUOTE])
    ensures ParseFrom(s, pos, true, out) == Found(out + [], pos + |WriteBody([])| + 1) && IsUtf8([])
  {
    ByteAt(s, pos, [QUOTE], 0);
    assert out + [] == out;
    NoBytes();
  }

  lemma OneRound(s: seq<Byte>, pos: nat, validate: bool, out: seq<Byte>)
    requires PeekByte(s, pos) != QUOTE && pos < |s|
    ensures var r := Round(s, pos, validate);
            ParseFrom(s, pos, validate, out) ==
            if r.Failed? then r else ParseFrom(s, r.next, validate, out + r.text)
  {
  }

  /** One round reads one character of the bytes, or finds that it is none. */
  lemma FirstCharacter(s: seq<Byte>, pos: nat, bytes: seq<Byte>)
    requires Stands(s, pos, WriteBody(bytes) + [QUOTE]) && bytes != []
    ensures PeekByte(s, pos) != QUOTE && pos < |s|
    ensures var d := Utf8Decode(bytes, 0);
            && (IsUtf8(bytes) <==> d.ok && d.next <= |bytes| && IsUtf8(bytes[d.next..]))
            && (!d.ok ==> Round(s, pos, true) == Failed(StringInvalidEncoding))
            && (d.ok ==>
                  var rest := WriteBody(bytes[d.next..]);
                  var next := pos + |WriteBody(bytes)| - |rest|;
                  && 0 < d.next <= |bytes| && |rest| <= |WriteBody(bytes)|
                  && Round(s, pos, true) == Found(bytes[..d.next], next) && Stands(s, next, rest + [QUOTE]))
  {
    hide Round, WriteByte, Utf8Decode, IsUtf8, Stands;
    IsUtf8Step(bytes);
    if bytes[0] < 0x80 {
      AsciiDecodes(bytes);
      FirstAscii(s, pos, bytes);
    } else {
      HighIsRead(s, pos, bytes);
    }
  }

  lemma FirstAscii(s: seq<Byte>, pos: nat, bytes: seq<Byte>)
    requires Stands(s, pos, WriteBody(bytes) + [QUOTE]) && bytes != [] && bytes[0] < 0x80
    ensures PeekByte(s, pos) != QUOTE && pos < |s|
    ensures var text, rest := WriteByte(bytes[0]), WriteBody(bytes[1..]);
            && |WriteBody(bytes)| == |text| + |rest|
            && Round(s, pos, true) == Found(bytes[..1], pos + |text|) && Stands(s, pos + |text|, rest + [QUOTE])
  {
    hide Round, WriteByte, Stands, WriteBody;
    var text, rest := WriteByte(bytes[0]), WriteBody(bytes[1..]);
    BodyOf(bytes);
    Regrouped(text, rest, [QUOTE]);
    StandsParts(s, pos, text, rest + [QUOTE]);
    ByteIsRead(s, pos, bytes[0], true);
    ByteAt(s, pos, text, 0);
    assert bytes[..1] == [bytes[0]];
  }

  lemma Regrouped<T>(a: seq<T>, b: seq<T>, c: seq<T>)
    ensures a + b + c == a + (b + c)
  {
  }

  lemma NoBytes()
    ensures IsUtf8([])
  {
  }

  lemma AsciiDecodes(bytes: seq<Byte>)
    requires bytes != [] && bytes[0] < 0x80
    ensures Utf8Decode(bytes, 0) == Decoded(true, bytes[0], 1)
  {
  }

  /** A written literal, read with or without validation, whatever follows it. */
  lemma LiteralRoundTrip(bytes: seq<Byte>, rest: seq<Byte>, validate: bool)
    ensures ParseFrom(Literal(bytes) + rest, 1, validate, []) ==
            if validate && !IsUtf8(bytes) then Failed(StringInvalidEncoding) else Found(bytes, |Literal(bytes)|)
  {
    var s := Literal(bytes) + rest;
    var text := WriteBody(bytes) + [QUOTE];
    assert Literal(bytes) == [QUOTE] + text;
    assert s[1..1 + |text|] == text;
    assert [] + bytes == bytes;
    hide ParseFrom, IsUtf8;
    if validate {
      ValidatedIsRead(s, 1, bytes, []);
    } else {
      BodyIsRead(s, 1, bytes, []);
    }
  }
}
