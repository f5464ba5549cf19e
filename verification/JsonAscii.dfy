/** The bytes the reader and the writer of JSON know, as characters (thirdparty/rapidjson/reader.h:258-270,
    754-774, 840-866, 1133-1386; thirdparty/rapidjson/writer.h:345-417; RFC 4627). */
module JsonAscii {
  import opened Core
  import opened Encodings
  import G = JsonGrammar
  import S = JsonStrings
  import N = JsonNumbers
  import X = JsonLexing

  predicate Is(c: Byte, x: char) { c as char == x }

  lemma MarksAreAscii(c: Byte)
    ensures X.Mark(c) == Some(G.LeftBracket) <==> Is(c, '[')
    ensures X.Mark(c) == Some(G.RightBracket) <==> Is(c, ']')
    ensures X.Mark(c) == Some(G.LeftCurlyBracket) <==> Is(c, '{')
    ensures X.Mark(c) == Some(G.RightCurlyBracket) <==> Is(c, '}')
    ensures X.Mark(c) == Some(G.Comma) <==> Is(c, ',')
    ensures X.Mark(c) == Some(G.Colon) <==> Is(c, ':')
    ensures X.Mark(c).Some? ==> c as char in "[]{},:"
    ensures S.QUOTE as char == '"' && S.BACKSLASH as char == '\\' && S.LETTER_U as char == 'u'
  {
  }

  lemma WhiteIsAscii(c: Byte)
    ensures X.IsWhite(c) <==> c as char in {' ', '\n', '\r', '\t'}
  {
  }

  /** The three words, and what they tell the handler. */
  lemma WordsAreAscii()
    ensures X.Chars(X.TRUE_WORD) == "true" && G.ScalarEvent(G.TrueToken(G.Read(()))) == G.Read(G.Bool(true))
    ensures X.Chars(X.FALSE_WORD) == "false" && G.ScalarEvent(G.FalseToken(G.Read(()))) == G.Read(G.Bool(false))
    ensures X.Chars(X.NULL_WORD) == "null" && G.ScalarEvent(G.NullToken(G.Read(()))) == G.Read(G.Null)
  {
  }

  lemma NumbersAreAscii(c: Byte)
    ensures N.IsDigitByte(c) <==> '0' <= c as char <= '9'
    ensures N.IsExponentLetter(c) <==> c as char in {'e', 'E'}
    ensures N.MINUS as char == '-' && N.PLUS as char == '+' && N.POINT as char == '.' && N.ZERO as char == '0'
  {
  }

  /** The letters of the one-letter escapes, and what each stands for: backspace, form feed and so on. */
  const LETTERS := "\"\\/bfnrt"
  const MEANINGS := "\"\\/\U{08}\U{0C}\n\r\t"

  lemma LettersAreAscii(c: Byte, k: nat)
    requires k < 8
    ensures Is(c, LETTERS[k]) ==> S.UnescapeLetter(c) != 0 && S.UnescapeLetter(c) as char == MEANINGS[k]
    ensures S.UnescapeLetter(c) != 0 ==> c as char in LETTERS
  {
    LetterValues();
    if S.UnescapeLetter(c) != 0 { LetterIsListed(c); }
  }

  lemma LetterValues()
    ensures |LETTERS| == 8 && |MEANINGS| == 8
    ensures LETTERS[0] as int == 34 && LETTERS[1] as int == 92 && LETTERS[2] as int == 47 && LETTERS[3] as int == 98
    ensures LETTERS[4] as int == 102 && LETTERS[5] as int == 110 && LETTERS[6] as int == 114 && LETTERS[7] as int == 116
    ensures MEANINGS[0] as int == 34 && MEANINGS[1] as int == 92 && MEANINGS[2] as int == 47 && MEANINGS[3] as int == 8
    ensures MEANINGS[4] as int == 12 && MEANINGS[5] as int == 10 && MEANINGS[6] as int == 13 && MEANINGS[7] as int == 9
  {
  }

  lemma LetterIsListed(c: Byte)
    requires S.UnescapeLetter(c) != 0
    ensures c as char in LETTERS
  {
    LetterValues();
    var k := if c == 34 then 0 else if c == 92 then 1 else if c == 47 then 2 else if c == 98 then 3
             else if c == 102 then 4 else if c == 110 then 5 else if c == 114 then 6 else 7;
    assert LETTERS[k] == c as char;
  }

  /** Hexadecimal digits are read in either case. */
  lemma DigitsAreAscii(c: Byte, v: nat)
    ensures S.HexValue(c) == Some(v) <==> v < 16 && (Is(c, "0123456789abcdef"[v]) || Is(c, "0123456789ABCDEF"[v]))
  {
  }

  /** The writer escapes the two marks of a literal and what is below the blank: by a letter where there
      is one, and else by four digits in upper case. */
  lemma WrittenBytesAreAscii(c: Byte)
    ensures var text := X.Chars(S.WriteByte(c));
            if c as char in {'"', '\\'} then text == ['\\', c as char]
            else if ' ' <= c as char then text == [c as char]
            else if c as char in {'\U{08}', '\t', '\n', '\U{0C}', '\r'}
            then |text| == 2 && text[0] == '\\' && exists k :: 0 <= k < 8 && LETTERS[k] == text[1] && MEANINGS[k] == c as char
            else text == ['\\', 'u', '0', '0', "0123456789ABCDEF"[c / 16], "0123456789ABCDEF"[c % 16]]
  {
    LetterValues();
    if c < 32 {
      UpperDigit(c / 16);
      UpperDigit(c % 16);
      var k := if c == 8 then 3 else if c == 12 then 4 else if c == 10 then 5 else if c == 13 then 6 else 7;
      assert c in {8, 9, 10, 12, 13} ==> MEANINGS[k] == c as char && LETTERS[k] == S.EscapeLetter(c) as char;
    }
  }

  lemma UpperDigit(n: nat)
    requires n < 16
    ensures S.HexDigit(n) as char == "0123456789ABCDEF"[n]
  {
  }
}
