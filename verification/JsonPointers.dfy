/** JSON Pointers, as strings and as URI fragments: parsing into names, and printing
    (thirdparty/rapidjson/pointer.h:776-972, 974-1040; sections 3, 4 and 6 of RFC 6901). */
module JsonPointers {
  import opened Core
  import opened Encodings
  import opened JsonStrings

  const SOLIDUS: Byte := 47
  const TILDE: Byte := 126
  const PERCENT: Byte := 37
  const HASH: Byte := 35

  datatype PointerError =
    | TokenMustBeginWithSolidus | InvalidEscape | InvalidPercentEncoding | CharacterMustPercentEncode

  /** Not an unreserved character of a URI. */
  predicate NeedPercentEncode(c: Byte) {
    !(48 <= c <= 57 || 65 <= c <= 90 || 97 <= c <= 122 || c == 45 || c == 46 || c == 95 || c == TILDE)
  }

  // ----- Parsing -----

  /** One step inside a name: the bytes put and the new position, or the error. */
  datatype Step = Put(bytes: seq<Byte>, next: nat) | StepFailed(error: PointerError)

  /** `~0` and `~1`; `i` is the position behind `c`. */
  function Escape(s: seq<Byte>, i: nat, c: Byte): Step {
    if c != TILDE then Put([c], i)
    else if PeekByte(s, i) == 48 then Put([TILDE], i + 1)
    else if PeekByte(s, i) == 49 then Put([SOLIDUS], i + 1)
    else StepFailed(InvalidEscape)
  }

  /** A triplet of a percent sign and two hexadecimal digits. */
  function PercentByte(s: seq<Byte>, i: nat): Option<Byte> {
    if i + 3 > |s| || s[i] != PERCENT then None else
      match (HexValue(s[i + 1]), HexValue(s[i + 2]))
      case (Some(high), Some(low)) => HexBelow(s[i + 1]); HexBelow(s[i + 2]); Some(high * 16 + low)
      case _ => None
  }

  lemma HexBelow(c: Byte)
    ensures HexValue(c).Some? ==> HexValue(c).value < 16
  {
  }

  /** What the decoding stream yields: 0 for what is no triplet. */
  function Triplet(s: seq<Byte>, i: nat): Byte {
    match PercentByte(s, i)
    case None => 0
    case Some(b) => b
  }

  function Triplets(s: seq<Byte>, i: nat): (r: seq<Byte>)
    ensures |r| == 4
  {
    [Triplet(s, i), Triplet(s, i + 3), Triplet(s, i + 6), Triplet(s, i + 9)]
  }

  predicate IsTriplet(s: seq<Byte>, i: nat, k: nat) { PercentByte(s, i + 3 * k).Some? }

  predicate AllTriplets(s: seq<Byte>, i: nat, n: nat) {
    forall k: nat :: k < n ==> IsTriplet(s, i, k)
  }

  /** One UTF-8 character in percent encoding. */
  function PercentChar(s: seq<Byte>, i: nat): (r: Option<seq<Byte>>)
    ensures r.Some? ==> 1 <= |r.value| <= 4 && AllTriplets(s, i, |r.value|)
  {
    Utf8DecodeAcceptsIff(Triplets(s, i), 0);
    var d := Utf8Decode(Triplets(s, i), 0);
    if d.ok && AllTriplets(s, i, d.next) then Some(Triplets(s, i)[..d.next]) else None
  }

  function NameStep(s: seq<Byte>, i: nat, uri: bool): (r: Step)
    requires i < |s|
    ensures r.Put? ==> i < r.next <= |s| && i + |r.bytes| <= r.next
  {
    var c := s[i];
    if uri && c == PERCENT then
      match PercentChar(s, i)
      case None => StepFailed(InvalidPercentEncoding)
      case Some(bytes) =>
        var n := |bytes|;
        assert IsTriplet(s, i, n - 1);
        if n == 1 then Escape(s, i + 3, bytes[0]) else Put(bytes, i + 3 * n)
    else if uri && NeedPercentEncode(c) then StepFailed(CharacterMustPercentEncode)
    else Escape(s, i + 1, c)
  }

  datatype Named = Named(name: seq<Byte>, next: nat) | NameFailed(error: PointerError)

  /** The rest of a name, up to a solidus or the end. */
  function ParseName(s: seq<Byte>, i: nat, uri: bool, name: seq<Byte>): (r: Named)
    requires i <= |s|
    ensures r.Named? ==> i <= r.next <= |s| && (r.next == |s| || s[r.next] == SOLIDUS)
    decreases |s| - i
  {
    if i == |s| || s[i] == SOLIDUS then Named(name, i) else
      match NameStep(s, i, uri)
      case StepFailed(e) => NameFailed(e)
      case Put(bytes, next) => ParseName(s, next, uri, name + bytes)
  }

  datatype Parsed = Names(names: seq<seq<Byte>>) | ParseFailed(error: PointerError)

  function ParseTokens(s: seq<Byte>, i: nat, uri: bool, names: seq<seq<Byte>>): Parsed
    requires i <= |s| && (i == |s| || s[i] == SOLIDUS)
    decreases |s| - i
  {
    if i == |s| then Names(names) else
      match ParseName(s, i + 1, uri, [])
      case NameFailed(e) => ParseFailed(e)
      case Named(name, next) => ParseTokens(s, next, uri, names + [name])
  }

  predicate IsUriFragment(s: seq<Byte>) { PeekByte(s, 0) == HASH }

  function ParsePointer(s: seq<Byte>): Parsed {
    var i := if IsUriFragment(s) then 1 else 0;
    if i < |s| && s[i] != SOLIDUS then ParseFailed(TokenMustBeginWithSolidus)
    else if i > |s| then Names([])
    else ParseTokens(s, i, IsUriFragment(s), [])
  }

  // ----- Printing -----

  function PercentEncode(bytes: seq<Byte>): (r: seq<Byte>)
    ensures |r| == 3 * |bytes|
  {
    if bytes == [] then [] else
      [PERCENT, HexDigit(bytes[0] / 16), HexDigit(bytes[0] % 16)] + PercentEncode(bytes[1..])
  }

  /** The text of a name from position `j` on; None where it is not UTF-8. */
  function StringifyName(name: seq<Byte>, uri: bool, j: nat): Option<seq<Byte>>
    requires j <= |name|
    decreases |name| - j
  {
    if j == |name| then Some([])
    else if name[j] == TILDE then Before([TILDE, 48], StringifyName(name, uri, j + 1))
    else if name[j] == SOLIDUS then Before([TILDE, 49], StringifyName(name, uri, j + 1))
    else if uri && NeedPercentEncode(name[j]) then
      Utf8DecodeAcceptsIff(name, j);
      var d := Utf8Decode(name, j);
      if !d.ok then None else Before(PercentEncode(name[j..d.next]), StringifyName(name, uri, d.next))
    else Before([name[j]], StringifyName(name, uri, j + 1))
  }

  function Before(text: seq<Byte>, rest: Option<seq<Byte>>): Option<seq<Byte>> {
    match rest
    case None => None
    case Some(later) => Some(text + later)
  }

  function StringifyTokens(names: seq<seq<Byte>>, uri: bool): Option<seq<Byte>> {
    if names == [] then Some([]) else
      match StringifyName(names[0], uri, 0)
      case None => None
      case Some(text) => Before([SOLIDUS] + text, StringifyTokens(names[1..], uri))
  }

  function Stringify(names: seq<seq<Byte>>, uri: bool): Option<seq<Byte>> {
    if uri then Before([HASH], StringifyTokens(names, uri)) else StringifyTokens(names, uri)
  }

  // ----- Which bytes stand for themselves -----

  /** The unreserved characters of section 2.3 of RFC 3986. */
  predicate IsUnreserved(b: Byte) {
    var c := b as char;
    'A' <= c <= 'Z' || 'a' <= c <= 'z' || '0' <= c <= '9' || c in {'-', '.', '_', '~'}
  }

  /** Behind the `#`: names of unreserved bytes and of percent triplets, each behind a solidus. */
  predicate IsFragmentText(s: seq<Byte>) {
    if s == [] then true
    else if s[0] == PERCENT then |s| >= 3 && IsUpperHex(s[1]) && IsUpperHex(s[2]) && IsFragmentText(s[3..])
    else (s[0] == SOLIDUS || IsUnreserved(s[0])) && IsFragmentText(s[1..])
  }

  predicate IsUpperHex(b: Byte) { '0' <= b as char <= '9' || 'A' <= b as char <= 'F' }

  lemma {:induction false} FragmentAppend(a: seq<Byte>, b: seq<Byte>)
    requires IsFragmentText(a) && IsFragmentText(b)
    ensures IsFragmentText(a + b)
  {
    if a == [] {
      assert a + b == b;
    } else if a[0] == PERCENT {
      FragmentAppend(a[3..], b);
      assert (a + b)[3..] == a[3..] + b;
    } else {
      FragmentAppend(a[1..], b);
      assert (a + b)[1..] == a[1..] + b;
    }
  }

  lemma {:induction false} EncodedIsFragment(bytes: seq<Byte>)
    ensures IsFragmentText(PercentEncode(bytes))
  {
    if bytes != [] {
      EncodedIsFragment(bytes[1..]);
      var c := bytes[0];
      assert PercentEncode(bytes)[3..] == PercentEncode(bytes[1..]);
    }
  }

  lemma {:induction false} NameIsFragment(name: seq<Byte>, j: nat)
    requires j <= |name| && StringifyName(name, true, j).Some?
    ensures IsFragmentText(StringifyName(name, true, j).value)
    decreases |name| - j
  {
    if j < |name| {
      if name[j] == TILDE || name[j] == SOLIDUS || !NeedPercentEncode(name[j]) {
        NameIsFragment(name, j + 1);
        var text := if name[j] == TILDE then [TILDE, 48] else if name[j] == SOLIDUS then [TILDE, 49] else [name[j]];
        assert |text| == 2 ==> text[1..][1..] == [];
        FragmentAppend(text, StringifyName(name, true, j + 1).value);
      } else {
        Utf8DecodeAcceptsIff(name, j);
        var next := Utf8Decode(name, j).next;
        NameIsFragment(name, next);
        EncodedIsFragment(name[j..next]);
        FragmentAppend(PercentEncode(name[j..next]), StringifyName(name, true, next).value);
      }
    }
  }

  /** A printed fragment holds only what may stand in one (sections 2.3 and 3.5 of RFC 3986). */
  lemma {:induction false} PrintedIsFragment(names: seq<seq<Byte>>)
    requires Stringify(names, true).Some?
    ensures var s := Stringify(names, true).value;
            s != [] && s[0] == HASH && IsFragmentText(s[1..])
  {
    TokensAreFragment(names);
    var text := StringifyTokens(names, true).value;
    assert ([HASH] + text)[1..] == text;
  }

  lemma {:induction false} TokensAreFragment(names: seq<seq<Byte>>)
    requires StringifyTokens(names, true).Some?
    ensures IsFragmentText(StringifyTokens(names, true).value)
  {
    if names != [] {
      TokensAreFragment(names[1..]);
      NameIsFragment(names[0], 0);
      var text := StringifyName(names[0], true, 0).value;
      assert ([SOLIDUS] + text)[1..] == text;
      FragmentAppend([SOLIDUS] + text, StringifyTokens(names[1..], true).value);
    }
  }

  /** In both forms `~0` is a tilde and `~1` a solidus (section 4 of RFC 6901); no other tilde is accepted. */
  lemma EscapesMean(s: seq<Byte>, i: nat, uri: bool)
    requires i < |s| && s[i] as char == '~'
    ensures TILDE as char == '~' && SOLIDUS as char == '/' && PERCENT as char == '%' && HASH as char == '#'
    ensures PeekByte(s, i + 1) as char == '0' ==> NameStep(s, i, uri) == Put([TILDE], i + 2)
    ensures PeekByte(s, i + 1) as char == '1' ==> NameStep(s, i, uri) == Put([SOLIDUS], i + 2)
    ensures PeekByte(s, i + 1) as char !in {'0', '1'} ==> NameStep(s, i, uri) == StepFailed(InvalidEscape)
  {
  }

  /** A percent sign in a fragment is refused exactly if no triplets that encode one character follow. */
  lemma PercentIsRefusedIff(s: seq<Byte>, i: nat)
    requires i < |s| && s[i] as char == '%'
    ensures NameStep(s, i, true) == StepFailed(InvalidPercentEncoding) <==> forall bytes :: !EncodesCharacter(s, i, bytes)
  {
    if PercentChar(s, i).Some? {
      CharacterIsEncoded(s, i);
    } else {
      forall bytes ensures !EncodesCharacter(s, i, bytes) {
        if EncodesCharacter(s, i, bytes) { EncodedIsCharacter(s, i, bytes); }
      }
    }
    hide EncodesCharacter;
  }

  /** Triplets at `i`, in either case, for the bytes of one character of UTF-8. */
  ghost predicate EncodesCharacter(s: seq<Byte>, i: nat, bytes: seq<Byte>) {
    IsUtf8Char(bytes) && forall k :: 0 <= k < |bytes| ==> PercentByte(s, i + 3 * k) == Some(bytes[k])
  }

  lemma CharacterIsEncoded(s: seq<Byte>, i: nat)
    requires PercentChar(s, i).Some?
    ensures EncodesCharacter(s, i, PercentChar(s, i).value)
  {
    var all := Triplets(s, i);
    Utf8DecodeAcceptsIff(all, 0);
    var bytes := PercentChar(s, i).value;
    assert bytes == all[0..|bytes|];
    hide Utf8Decode, IsUtf8Char;
    forall k | 0 <= k < |bytes| ensures PercentByte(s, i + 3 * k) == Some(bytes[k]) {
      assert IsTriplet(s, i, k);
    }
  }

  lemma EncodedIsCharacter(s: seq<Byte>, i: nat, bytes: seq<Byte>)
    requires EncodesCharacter(s, i, bytes)
    ensures PercentChar(s, i).Some?
  {
    var all := Triplets(s, i);
    assert |bytes| <= 4;
    assert all[..|bytes|] == bytes by {
      forall k | 0 <= k < |bytes| ensures all[k] == bytes[k] { assert PercentByte(s, i + 3 * k) == Some(bytes[k]); }
    }
    CharIsUnique8(all, |bytes|);
    forall k: nat | k < |bytes| ensures IsTriplet(s, i, k) { assert PercentByte(s, i + 3 * k) == Some(bytes[k]); }
  }

  /** In a fragment a byte is refused, as one that must be encoded, exactly if it is reserved and starts
      no triplet. */
  lemma RawByteIsRefusedIff(s: seq<Byte>, i: nat)
    requires i < |s|
    ensures NameStep(s, i, true) == StepFailed(CharacterMustPercentEncode) <==> s[i] != PERCENT && !IsUnreserved(s[i])
    ensures NameStep(s, i, false) != StepFailed(CharacterMustPercentEncode)
  {
    hide Utf8Decode;
  }

  // ----- The pointer and its name buffer -----

  /** A name in the buffer; a terminator follows it. */
  datatype Token = Token(start: nat, length: nat)

  class Pointer {
    const nameBuffer: array<Byte>
    var tokens: seq<Token>
    var error: Option<PointerError>

    /** Every token lies in the buffer, with room for its terminator. */
    ghost predicate Valid()
      reads this
    {
      forall k :: 0 <= k < |tokens| ==> tokens[k].start + tokens[k].length < nameBuffer.Length
    }

    ghost function Name(t: Token): seq<Byte>
      reads nameBuffer
      requires t.start + t.length < nameBuffer.Length
    {
      nameBuffer[t.start..t.start + t.length]
    }

    /** The names the tokens stand for. */
    ghost function Names(): (r: seq<seq<Byte>>)
      reads this, nameBuffer
      requires Valid()
      ensures |r| == |tokens|
    {
      seq(|tokens|, k requires 0 <= k < |tokens| && Valid() reads this, nameBuffer => Name(tokens[k]))
    }

    /** Parses a pointer, as a string or as a URI fragment. The buffer has the size of the source;
        every write is inside it. */
    constructor (source: seq<Byte>)
      ensures Valid() && fresh(nameBuffer) && nameBuffer.Length == |source|
      ensures match ParsePointer(source)
              case ParseFailed(e) => error == Some(e) && tokens == []
              case Names(names) => error == None && Names() == names
    {
      nameBuffer := new Byte[|source|];
      tokens := [];
      error := None;
      new;
      var i := 0;
      var uriFragment := false;
      if PeekByte(source, i) == HASH {
        uriFragment := true;
        i := i + 1;
      }
      if i < |source| && source[i] != SOLIDUS {
        error := Some(TokenMustBeginWithSolidus);
        return;
      }
      ParseAll(source, i, uriFragment);
    }

    /** The tokens before position `i` are done and use the buffer up to `name`. */
    ghost predicate Parsing(name: nat, i: nat)
      reads this
    {
      && name <= i
      && forall k :: 0 <= k < |tokens| ==> tokens[k].start + tokens[k].length < name
    }

    method ParseAll(source: seq<Byte>, start: nat, uri: bool)
      requires start <= |source| == nameBuffer.Length && (start == |source| || source[start] == SOLIDUS)
      requires tokens == [] && error == None
      modifies this, nameBuffer
      ensures Valid()
      ensures match ParseTokens(source, start, uri, [])
              case ParseFailed(e) => error == Some(e) && tokens == []
              case Names(names) => error == None && Names() == names
    {
      hide ParseName;
      var i, name := start, 0;
      assert Names() == [];
      while i < |source|
        invariant i <= |source| && (i == |source| || source[i] == SOLIDUS) && error == None
        invariant Parsing(name, i) && Valid()
        invariant ParseTokens(source, start, uri, []) == ParseTokens(source, i, uri, Names())
      {
        name, i := ParseToken(source, i, uri, name);
        if error.Some? {
          tokens := [];
          return;
        }
      }
    }

    /** Reads one token, from its solidus on, and terminates its name. */
    method ParseToken(source: seq<Byte>, start: nat, uri: bool, name: nat) returns (name': nat, i: nat)
      requires start < |source| == nameBuffer.Length && error == None && Parsing(name, start) && Valid()
      modifies this, nameBuffer
      ensures match ParseName(source, start + 1, uri, [])
              case NameFailed(e) => error == Some(e)
              case Named(text, next) =>
                && error == None && i == next && Parsing(name', i) && Valid()
                && Names() == old(Names()) + [text]
    {
      hide ParseName;
      ghost var names, bytes := Names(), nameBuffer[..];
      assert forall k :: 0 <= k < |tokens| ==> names[k] == bytes[tokens[k].start..tokens[k].start + tokens[k].length];
      var end;
      end, i := ParseOneName(source, start + 1, uri, name);
      name' := end + 1;
      if error.Some? { return; }
      NamesKept(names, bytes, name);
      EndToken(name, end);
    }

    lemma NamesKept(names: seq<seq<Byte>>, bytes: seq<Byte>, name: nat)
      requires Valid() && |bytes| == nameBuffer.Length && name <= |bytes| && |names| == |tokens|
      requires forall k :: 0 <= k < |tokens| ==>
                 && tokens[k].start + tokens[k].length < name
                 && names[k] == bytes[tokens[k].start..tokens[k].start + tokens[k].length]
      requires forall k :: 0 <= k < name ==> nameBuffer[k] == bytes[k]
      ensures Names() == names
    {
      forall k | 0 <= k < |tokens| ensures Names()[k] == names[k] {
        var t := tokens[k];
        assert Name(t) == bytes[t.start..t.start + t.length];
      }
      assert Names() == names;
    }

    method EndToken(name: nat, end: nat)
      requires name <= end < nameBuffer.Length && Valid()
      requires forall k :: 0 <= k < |tokens| ==> tokens[k].start + tokens[k].length < name
      modifies this`tokens, nameBuffer
      ensures Valid() && Names() == old(Names()) + [old(nameBuffer[name..end])]
      ensures forall k :: 0 <= k < |tokens| ==> tokens[k].start + tokens[k].length < end + 1
    {
      ghost var before, names, bytes := tokens, Names(), nameBuffer[..];
      assert forall k :: 0 <= k < |before| ==> names[k] == bytes[before[k].start..before[k].start + before[k].length];
      nameBuffer[end] := 0;
      NamesKept(names, bytes, name);
      tokens := tokens + [Token(name, end - name)];
      hide Stands;
      assert forall k :: 0 <= k < |before| ==> tokens[k] == before[k];
      assert nameBuffer[name..end] == bytes[name..end];
      assert Names() == names + [Name(tokens[|before|])];
    }

    /** Reads one name into the buffer, behind the names before it. */
    method ParseOneName(source: seq<Byte>, start: nat, uri: bool, name: nat) returns (end: nat, i: nat)
      requires name + 1 <= start <= |source| == nameBuffer.Length && error == None
      modifies this`error, nameBuffer
      ensures match ParseName(source, start, uri, [])
              case NameFailed(e) => error == Some(e)
              case Named(text, next) =>
                && error == None && i == next && name <= end < i
                && nameBuffer[name..end] == text
      ensures forall k :: 0 <= k < name ==> nameBuffer[k] == old(nameBuffer[k])
    {
      hide NameStep;
      end, i := name, start;
      assert nameBuffer[name..name] == [];
      while i < |source| && source[i] != SOLIDUS
        invariant start <= i <= |source| && name <= end < i && error == None
        invariant ParseName(source, start, uri, []) == ParseName(source, i, uri, nameBuffer[name..end])
        invariant forall k :: 0 <= k < name ==> nameBuffer[k] == old(nameBuffer[k])
      {
        var step := ParseStep(source, i, uri);
        match step {
          case StepFailed(e) =>
            error := Some(e);
            return;
          case Put(bytes, next) =>
            ghost var text := nameBuffer[name..end];
            StepFits(source, i, uri);
            PutBytes(end, bytes);
            assert nameBuffer[name..end + |bytes|] == text + bytes;
            end := end + |bytes|;
            i := next;
        }
      }
    }

    method PutBytes(at: nat, bytes: seq<Byte>)
      requires at + |bytes| <= nameBuffer.Length
      modifies nameBuffer
      ensures nameBuffer[at..at + |bytes|] == bytes
      ensures forall k :: 0 <= k < at ==> nameBuffer[k] == old(nameBuffer[k])
    {
      assert nameBuffer[at..at] == [] && bytes[..0] == [];
      for j := 0 to |bytes|
        invariant nameBuffer[at..at + j] == bytes[..j]
        invariant forall k :: 0 <= k < at ==> nameBuffer[k] == old(nameBuffer[k])
      {
        nameBuffer[at + j] := bytes[j];
        assert nameBuffer[at..at + j + 1] == nameBuffer[at..at + j] + [bytes[j]];
      }
    }
  }

  /** A step puts no more than it takes. */
  lemma StepFits(s: seq<Byte>, i: nat, uri: bool)
    requires i < |s|
    ensures var r := NameStep(s, i, uri); r.Put? ==> i < r.next <= |s| && i + |r.bytes| <= r.next
  {
  }

  method ParseStep(s: seq<Byte>, i: nat, uri: bool) returns (r: Step)
    requires i < |s|
    ensures r == NameStep(s, i, uri)
  {
    var c, next := s[i], i + 1;
    if uri {
      if c == PERCENT {
        var decoded := PercentChar(s, i);
        if decoded.None? { return StepFailed(InvalidPercentEncoding); }
        if |decoded.value| > 1 { return Put(decoded.value, i + 3 * |decoded.value|); }
        c := decoded.value[0];
        next := i + 3;
      } else if NeedPercentEncode(c) {
        return StepFailed(CharacterMustPercentEncode);
      }
    }
    if c == TILDE {
      if next < |s| && s[next] == 48 {
        return Put([TILDE], next + 1);
      } else if next < |s| && s[next] == 49 {
        return Put([SOLIDUS], next + 1);
      } else {
        return StepFailed(InvalidEscape);
      }
    }
    r := Put([c], next);
  }

  // ----- Printing, then parsing -----

  lemma HexDigitsBack(b: Byte)
    ensures HexValue(HexDigit(b / 16)) == Some(b / 16) && HexValue(HexDigit(b % 16)) == Some(b % 16)
  {
  }

  lemma {:induction false} EncodedTriplets(s: seq<Byte>, i: nat, bytes: seq<Byte>, k: nat)
    requires Stands(s, i, PercentEncode(bytes)) && k < |bytes|
    ensures PercentByte(s, i + 3 * k) == Some(bytes[k])
    decreases k
  {
    var first, rest := [PERCENT, HexDigit(bytes[0] / 16), HexDigit(bytes[0] % 16)], PercentEncode(bytes[1..]);
    StandsParts(s, i, first, rest);
    if k == 0 {
      ByteAt(s, i, first, 0);
      ByteAt(s, i, first, 1);
      ByteAt(s, i, first, 2);
      HexDigitsBack(bytes[0]);
    } else {
      EncodedTriplets(s, i + 3, bytes[1..], k - 1);
    }
  }

  /** A character in percent encoding is decoded to its bytes. */
  lemma EncodedCharacter(s: seq<Byte>, i: nat, bytes: seq<Byte>)
    requires IsUtf8Char(bytes) && Stands(s, i, PercentEncode(bytes))
    ensures PercentChar(s, i) == Some(bytes) && i < |s| && s[i] == PERCENT
  {
    var n := |bytes|;
    assert [PERCENT] + PercentEncode(bytes)[1..] == PercentEncode(bytes);
    StandsParts(s, i, [PERCENT], PercentEncode(bytes)[1..]);
    ByteAt(s, i, [PERCENT], 0);
    TripletsOf(s, i, bytes);
    hide Utf8Decode, IsUtf8Char, PercentByte, PercentEncode, Stands, AllTriplets;
    CharIsUnique8(Triplets(s, i), n);
  }

  lemma TripletsOf(s: seq<Byte>, i: nat, bytes: seq<Byte>)
    requires 1 <= |bytes| <= 4 && Stands(s, i, PercentEncode(bytes))
    ensures AllTriplets(s, i, |bytes|) && Triplets(s, i)[..|bytes|] == bytes
  {
    hide PercentByte, PercentEncode, Stands;
    var t := Triplets(s, i);
    forall k: nat | k < |bytes| ensures IsTriplet(s, i, k) && t[k] == bytes[k] {
      EncodedTriplets(s, i, bytes, k);
      assert t[k] == Triplet(s, i + 3 * k);
    }
    assert t[..|bytes|] == bytes;
  }

  /** What is printed for a name is read back as that name. */
  lemma {:induction false} NameIsRead(s: seq<Byte>, i: nat, name: seq<Byte>, uri: bool, j: nat, text: seq<Byte>, acc: seq<Byte>)
    requires j <= |name| && StringifyName(name, uri, j) == Some(text)
    requires Stands(s, i, text) && (i + |text| == |s| || PeekByte(s, i + |text|) == SOLIDUS)
    ensures i <= |s| && ParseName(s, i, uri, acc) == Named(acc + name[j..], i + |text|)
    decreases |name| - j
  {
    hide Utf8Decode, PercentChar, PercentEncode, Stands, NameStep, Character;
    if j == |name| {
      assert acc + name[j..] == acc;
      EndsName(s, i, uri, acc, text);
    } else {
      var first, next := FirstText(name, uri, j);
      var later := StringifyName(name, uri, next).value;
      StandsParts(s, i, first, later);
      FirstIsRead(s, i, name, uri, j);
      NameIsRead(s, i + |first|, name, uri, next, later, acc + name[j..next]);
      assert acc + name[j..next] + name[next..] == acc + name[j..];
    }
  }

  lemma EndsName(s: seq<Byte>, i: nat, uri: bool, acc: seq<Byte>, text: seq<Byte>)
    requires Stands(s, i, text) && text == [] && (i == |s| || PeekByte(s, i) == SOLIDUS)
    ensures i <= |s| && ParseName(s, i, uri, acc) == Named(acc, i)
  {
  }

  /** The text of the next character of a name. */
  lemma FirstText(name: seq<Byte>, uri: bool, j: nat) returns (first: seq<Byte>, next: nat)
    requires j < |name| && StringifyName(name, uri, j).Some?
    ensures j < next <= |name| && StringifyName(name, uri, next).Some?
    ensures StringifyName(name, uri, j) == Some(first + StringifyName(name, uri, next).value)
    ensures (first, next) == Character(name, uri, j)
  {
    hide Utf8Decode, PercentEncode;
    first, next := Character(name, uri, j).0, Character(name, uri, j).1;
    Utf8DecodeAcceptsIff(name, j);
  }

  function Character(name: seq<Byte>, uri: bool, j: nat): (seq<Byte>, nat)
    requires j < |name|
  {
    if name[j] == TILDE then ([TILDE, 48], j + 1)
    else if name[j] == SOLIDUS then ([TILDE, 49], j + 1)
    else if uri && NeedPercentEncode(name[j]) then
      Utf8DecodeAcceptsIff(name, j);
      var d := Utf8Decode(name, j);
      (if d.next <= |name| then PercentEncode(name[j..d.next]) else [], d.next)
    else ([name[j]], j + 1)
  }

  lemma FirstIsRead(s: seq<Byte>, i: nat, name: seq<Byte>, uri: bool, j: nat)
    requires j < |name| && StringifyName(name, uri, j).Some?
    requires Stands(s, i, Character(name, uri, j).0)
    ensures var c := Character(name, uri, j);
            && j < c.1 <= |name| && i < |s| && s[i] != SOLIDUS
            && NameStep(s, i, uri) == Put(name[j..c.1], i + |c.0|)
  {
    hide Utf8Decode, PercentEncode, PercentChar;
    var text := Character(name, uri, j).0;
    if name[j] == TILDE || name[j] == SOLIDUS {
      ByteAt(s, i, text, 0);
      ByteAt(s, i, text, 1);
      assert name[j..j + 1] == [name[j]];
    } else if uri && NeedPercentEncode(name[j]) {
      Utf8DecodeAcceptsIff(name, j);
      var d := Utf8Decode(name, j);
      var bytes := name[j..d.next];
      EncodedCharacter(s, i, bytes);
      assert |bytes| == 1 ==> bytes == [name[j]];
    } else {
      ByteAt(s, i, text, 0);
      assert name[j..j + 1] == [name[j]];
    }
  }

  lemma {:induction false} TokensAreRead(s: seq<Byte>, i: nat, names: seq<seq<Byte>>, uri: bool, text: seq<Byte>, acc: seq<seq<Byte>>)
    requires StringifyTokens(names, uri) == Some(text) && Stands(s, i, text) && i + |text| == |s|
    ensures i <= |s| && (i == |s| || s[i] == SOLIDUS)
    ensures ParseTokens(s, i, uri, acc) == Names(acc + names)
    decreases names
  {
    hide StringifyName, ParseName;
    if names == [] {
      assert acc + names == acc;
    } else {
      var first := StringifyName(names[0], uri, 0).value;
      var later := StringifyTokens(names[1..], uri).value;
      StandsParts(s, i, [SOLIDUS] + first, later);
      StandsParts(s, i, [SOLIDUS], first);
      ByteAt(s, i, [SOLIDUS], 0);
      TokensAreRead(s, i + 1 + |first|, names[1..], uri, later, acc + [names[0]]);
      NameIsRead(s, i + 1, names[0], uri, 0, first, []);
      assert [] + names[0][0..] == names[0];
      assert acc + [names[0]] + names[1..] == acc + names;
    }
  }

  /** Parsing what was printed gives back the same names: any names as a string, and as a URI
      fragment all names that can be printed. */
  lemma PrintedParses(names: seq<seq<Byte>>, uri: bool)
    requires Stringify(names, uri).Some?
    ensures ParsePointer(Stringify(names, uri).value) == Names(names)
  {
    var s := Stringify(names, uri).value;
    var text := StringifyTokens(names, uri).value;
    var i := if uri then 1 else 0;
    assert s[i..i + |text|] == text;
    TokensAreRead(s, i, names, uri, text, []);
    assert [] + names == names;
    StartsWithSolidus(names, uri);
    hide StringifyTokens, ParseTokens;
    assert !uri ==> s == text;
  }

  lemma StartsWithSolidus(names: seq<seq<Byte>>, uri: bool)
    requires StringifyTokens(names, uri).Some?
    ensures var text := StringifyTokens(names, uri).value; text != [] ==> text[0] == SOLIDUS
  {
  }

  // ----- What can be printed -----

  lemma {:induction false} PrintableName(name: seq<Byte>, uri: bool, j: nat)
    requires j <= |name|
    ensures StringifyName(name, uri, j).Some? <==> (uri ==> IsUtf8(name[j..]))
    decreases |name| - j
  {
    hide Utf8Decode, PercentEncode;
    if j < |name| {
      var c := name[j];
      DecodeFrom(name, j);
      IsUtf8Step(name[j..]);
      if c < 0x80 { AsciiDecodes(name[j..]); }
      var d := Utf8Decode(name, j);
      Utf8DecodeAcceptsIff(name, j);
      var next := if uri && NeedPercentEncode(c) && d.ok then d.next else j + 1;
      PrintableName(name, uri, next);
      assert name[j..][next - j..] == name[next..];
    } else {
      NoBytes();
    }
  }

  /** Every list of names can be printed as a string, and as a URI fragment exactly if all names
      are UTF-8. */
  lemma {:induction false} PrintableIff(names: seq<seq<Byte>>, uri: bool)
    ensures Stringify(names, uri).Some? <==> (uri ==> forall k :: 0 <= k < |names| ==> IsUtf8(names[k]))
    ensures StringifyTokens(names, uri).Some? <==> Stringify(names, uri).Some?
  {
    hide StringifyName, IsUtf8;
    if names != [] {
      PrintableName(names[0], uri, 0);
      assert names[0][0..] == names[0];
      PrintableIff(names[1..], uri);
      assert forall k :: 0 < k < |names| ==> names[k] == names[1..][k - 1];
    }
  }
}
