/** The unit tests of the line index, restated as lemmas about the model,
    and the inputs behind the column-conversion findings. */
module LineIndexExamples {
  import opened TextSize
  import opened LineIndex

  // ---------------------------------------------------------------------
  // test_line_index

  const HELLO_WORLD := LineIndex([0, 6], map[])

  lemma HelloLine()
    ensures Scan("hello\n") == Builder([0, 6], map[], [], 6, 0, 1)
  {
    ScanPlain("", "hello");
    assert "" + "hello" == "hello";
    ScanSnoc("hello", '\n');
    assert "hello" + "\n" == "hello\n";
  }

  lemma HelloWorldIndex()
    ensures New("hello\nworld") == HELLO_WORLD
  {
    HelloLine();
    ScanPlain("hello\n", "world");
    assert "hello\n" + "world" == "hello\nworld";
  }

  /** Offsets before the newline's successor are on line 0, the rest
      (including those past the end) on line 1, each at its distance from
      the line start. */
  lemma HelloWorldLineCols()
    ensures forall off :: 0 <= off < 6 ==> LineColOfAsWritten(HELLO_WORLD, off) == LineCol(0, off)
    ensures forall off :: 6 <= off ==> LineColOfAsWritten(HELLO_WORLD, off) == LineCol(1, off - 6)
  {
  }

  const NL_HELLO_WORLD := LineIndex([0, 1, 7], map[])

  lemma NlHelloWorldIndex()
    ensures New("\nhello\nworld") == NL_HELLO_WORLD
  {
    ScanSnoc("", '\n');
    assert "" + "\n" == "\n";
    ScanPlain("\n", "hello");
    assert "\n" + "hello" == "\nhello";
    ScanSnoc("\nhello", '\n');
    assert "\nhello" + "\n" == "\nhello\n";
    ScanPlain("\nhello\n", "world");
    assert "\nhello\n" + "world" == "\nhello\nworld";
  }

  lemma NlHelloWorldLineCols()
    ensures LineColOfAsWritten(NL_HELLO_WORLD, 0) == LineCol(0, 0)
    ensures forall off :: 1 <= off < 7 ==> LineColOfAsWritten(NL_HELLO_WORLD, off) == LineCol(1, off - 1)
    ensures forall off :: 7 <= off ==> LineColOfAsWritten(NL_HELLO_WORLD, off) == LineCol(2, off - 7)
  {
  }

  // ---------------------------------------------------------------------
  // test_empty_index

  lemma AsciiLiteralIndex()
    ensures New("\nconst C: char = 'x';\n").utf16Lines == map[]
  {
    AsciiTextHasNoUtf16Lines("\nconst C: char = 'x';\n");
  }

  // ---------------------------------------------------------------------
  // test_single_char

  const SINGLE_CHAR := LineIndex([0, 1, 24], map[1 := [Utf16Char(17, 20)]])

  /** The loop state after a single newline. */
  lemma ScanNewline()
    ensures Scan("\n") == Builder([0, 1], map[], [], 1, 0, 1)
  {
    ScanSnoc("", '\n');
    assert "" + "\n" == "\n";
  }

  /** The loop state after the ASCII start of the second line of
      test_single_char and test_string, up to and including the opening
      quote. */
  lemma QuoteOpen(quote: char)
    requires quote == '\'' || quote == '"'
    ensures Scan("\nconst C: char = " + [quote]) == Builder([0, 1], map[], [], 18, 17, 1)
  {
    ScanNewline();
    ScanPlain("\n", "const C: char = " + [quote]);
    assert "\n" + ("const C: char = " + [quote]) == "\nconst C: char = " + [quote];
  }

  /** The loop state after the first 'メ' that follows the opening quote:
      one pending three-byte character at bytes [17, 20) of line 1. */
  lemma QuoteFirstChar(quote: char)
    requires quote == '\'' || quote == '"'
    ensures Scan("\nconst C: char = " + [quote, '\U{30E1}']) == Builder([0, 1], map[], [Utf16Char(17, 20)], 21, 20, 1)
  {
    QuoteOpen(quote);
    ScanSnoc("\nconst C: char = " + [quote], '\U{30E1}');
    assert ("\nconst C: char = " + [quote]) + ['\U{30E1}'] == "\nconst C: char = " + [quote, '\U{30E1}'];
  }

  lemma SingleCharClose()
    ensures Scan("\nconst C: char = '\U{30E1}';") == Builder([0, 1], map[], [Utf16Char(17, 20)], 23, 22, 1)
  {
    QuoteFirstChar('\'');
    assert "\nconst C: char = " + ['\'', '\U{30E1}'] == "\nconst C: char = '\U{30E1}";
    ScanPlain("\nconst C: char = '\U{30E1}", "';");
    assert "\nconst C: char = '\U{30E1}" + "';" == "\nconst C: char = '\U{30E1}';";
  }

  lemma SingleCharIndex()
    ensures New("\nconst C: char = '\U{30E1}';\n") == SINGLE_CHAR
  {
    SingleCharClose();
    ScanSnoc("\nconst C: char = '\U{30E1}';", '\n');
    assert "\nconst C: char = '\U{30E1}';" + "\n" == "\nconst C: char = '\U{30E1}';\n";
    assert Scan("\nconst C: char = '\U{30E1}';\n") == Builder([0, 1, 24], SINGLE_CHAR.utf16Lines, [], 24, 0, 2);
  }

  lemma SingleCharColumns()
    ensures Utf8ToUtf16ColAsWritten(SINGLE_CHAR, 1, 15) == 15
    ensures Utf8ToUtf16ColAsWritten(SINGLE_CHAR, 1, 22) == 20
    ensures Utf16ToUtf8ColAsWritten(SINGLE_CHAR, 1, 15) == 15
    ensures Utf16ToUtf8ColAsWritten(SINGLE_CHAR, 1, 19) == 21
    ensures Utf8ToUtf16Col(SINGLE_CHAR, 1, 22) == 20
    ensures Utf16ToUtf8Col(SINGLE_CHAR, 1, 19) == 21
  {
  }

  // ---------------------------------------------------------------------
  // test_string

  const STRING := LineIndex([0, 1, 28], map[1 := [Utf16Char(17, 20), Utf16Char(21, 24)]])

  /** The loop state after the string's first character and the space. */
  lemma StringFirstHalf()
    ensures Scan("\nconst C: char = \"\U{30E1} ") == Builder([0, 1], map[], [Utf16Char(17, 20)], 22, 21, 1)
  {
    QuoteFirstChar('"');
    assert "\nconst C: char = " + ['"', '\U{30E1}'] == "\nconst C: char = \"\U{30E1}";
    ScanSnoc("\nconst C: char = \"\U{30E1}", ' ');
    assert "\nconst C: char = \"\U{30E1}" + " " == "\nconst C: char = \"\U{30E1} ";
  }

  lemma StringSecondChar()
    ensures Scan("\nconst C: char = \"\U{30E1} \U{30E1}") == Builder([0, 1], map[], STRING.utf16Lines[1], 25, 24, 1)
  {
    StringFirstHalf();
    ScanSnoc("\nconst C: char = \"\U{30E1} ", '\U{30E1}');
    assert "\nconst C: char = \"\U{30E1} " + "\U{30E1}" == "\nconst C: char = \"\U{30E1} \U{30E1}";
  }

  lemma StringClose()
    ensures Scan("\nconst C: char = \"\U{30E1} \U{30E1}\";") == Builder([0, 1], map[], STRING.utf16Lines[1], 27, 26, 1)
  {
    StringSecondChar();
    ScanPlain("\nconst C: char = \"\U{30E1} \U{30E1}", "\";");
    assert "\nconst C: char = \"\U{30E1} \U{30E1}" + "\";" == "\nconst C: char = \"\U{30E1} \U{30E1}\";";
  }

  lemma StringIndex()
    ensures New("\nconst C: char = \"\U{30E1} \U{30E1}\";\n") == STRING
  {
    StringClose();
    ScanSnoc("\nconst C: char = \"\U{30E1} \U{30E1}\";", '\n');
    assert "\nconst C: char = \"\U{30E1} \U{30E1}\";" + "\n" == "\nconst C: char = \"\U{30E1} \U{30E1}\";\n";
    assert Scan("\nconst C: char = \"\U{30E1} \U{30E1}\";\n") == Builder([0, 1, 28], STRING.utf16Lines, [], 28, 0, 2);
  }

  lemma StringUtf8ToUtf16()
    ensures Utf8ToUtf16ColAsWritten(STRING, 1, 15) == 15
    ensures Utf8ToUtf16ColAsWritten(STRING, 1, 21) == 19
    ensures Utf8ToUtf16ColAsWritten(STRING, 1, 25) == 21
    ensures Utf8ToUtf16ColAsWritten(STRING, 2, 15) == 15
  {
  }

  /** The source's expectations for UTF-16 to UTF-8, including column 19
      mapped to 23, the byte after the second character: column 19 is that
      character's own start, byte 21, which the corrected conversion
      gives. */
  lemma StringUtf16ToUtf8()
    ensures Utf16ToUtf8ColAsWritten(STRING, 1, 15) == 15
    ensures Utf16ToUtf8ColAsWritten(STRING, 1, 18) == 20
    ensures Utf16ToUtf8ColAsWritten(STRING, 1, 19) == 23
    ensures Utf16ToUtf8ColAsWritten(STRING, 2, 15) == 15
    ensures Utf16ToUtf8Col(STRING, 1, 19) == 21
    ensures Utf8ToUtf16Col(STRING, 1, 21) == 19
  {
  }

  // ---------------------------------------------------------------------
  // test_splitlines

  const SPLIT_LINES := LineIndex([0, 2, 5, 9], map[])

  lemma SplitLinesFirst()
    ensures Scan("a\n") == Builder([0, 2], map[], [], 2, 0, 1)
  {
    ScanSnoc("a", '\n');
    assert "a" + "\n" == "a\n";
  }

  lemma SplitLinesSecond()
    ensures Scan("a\nbb\n") == Builder([0, 2, 5], map[], [], 5, 0, 2)
  {
    SplitLinesFirst();
    ScanPlain("a\n", "bb");
    assert "a\n" + "bb" == "a\nbb";
    ScanSnoc("a\nbb", '\n');
    assert "a\nbb" + "\n" == "a\nbb\n";
  }

  lemma SplitLinesIndex()
    ensures New("a\nbb\nccc\n") == SPLIT_LINES
  {
    SplitLinesSecond();
    ScanPlain("a\nbb\n", "ccc");
    assert "a\nbb\n" + "ccc" == "a\nbb\nccc";
    ScanSnoc("a\nbb\nccc", '\n');
    assert "a\nbb\nccc" + "\n" == "a\nbb\nccc\n";
    assert Scan("a\nbb\nccc\n") == Builder([0, 2, 5, 9], map[], [], 9, 0, 3);
  }

  lemma SplitLinesPieces()
    ensures Lines(SPLIT_LINES, TextRange(0, 9)) == [TextRange(0, 2), TextRange(2, 5), TextRange(5, 9)]
  {
    SplitLinesCuts();
    SplitLinesPairs();
  }

  /** The range's ends around every line start, the repeated ones kept. */
  lemma SplitLinesCuts()
    ensures Cuts(SPLIT_LINES.newlines, TextRange(0, 9)) == [0, 0, 2, 5, 9, 9]
  {
    CutsOfWholeRun(SPLIT_LINES.newlines, TextRange(0, 9));
  }

  /** The consecutive pairs, with the two empty ones dropped. */
  lemma SplitLinesPairs()
    ensures SplitAt([0, 0, 2, 5, 9, 9]) == [TextRange(0, 2), TextRange(2, 5), TextRange(5, 9)]
  {
    assert SplitAt([0, 0]) == [];
    assert SplitAt([0, 0, 2]) == [TextRange(0, 2)] by {
      assert [0, 0, 2][..2] == [0, 0];
    }
    assert SplitAt([0, 0, 2, 5]) == [TextRange(0, 2), TextRange(2, 5)] by {
      assert [0, 0, 2, 5][..3] == [0, 0, 2];
    }
    assert SplitAt([0, 0, 2, 5, 9]) == [TextRange(0, 2), TextRange(2, 5), TextRange(5, 9)] by {
      assert [0, 0, 2, 5, 9][..4] == [0, 0, 2, 5];
    }
    assert [0, 0, 2, 5, 9, 9][..5] == [0, 0, 2, 5, 9];
  }

  lemma EmptyTextHasNoLines()
    ensures New("") == LineIndex([0], map[])
    ensures Lines(New(""), TextRange(0, 0)) == []
  {
  }

  const NEWLINE := LineIndex([0, 1], map[])

  lemma NewlineIsOneLine()
    ensures New("\n") == NEWLINE
    ensures Lines(NEWLINE, TextRange(0, 1)) == [TextRange(0, 1)]
  {
    ScanNewline();
    NewlineLines();
  }

  lemma NewlineLines()
    ensures Lines(NEWLINE, TextRange(0, 1)) == [TextRange(0, 1)]
  {
    NewlineCuts();
    assert SplitAt([0, 0, 1]) == [TextRange(0, 1)] by {
      assert [0, 0, 1][..2] == [0, 0];
    }
    assert [0, 0, 1, 1][..3] == [0, 0, 1];
  }

  lemma NewlineCuts()
    ensures Cuts(NEWLINE.newlines, TextRange(0, 1)) == [0, 0, 1, 1]
  {
    CutsOfWholeRun(NEWLINE.newlines, TextRange(0, 1));
  }

  // ---------------------------------------------------------------------
  // Findings

  /** A single three-byte character, one UTF-16 unit. */
  const KATAKANA := LineIndex([0], map[0 := [Utf16Char(0, 3)]])

  lemma KatakanaIndex()
    ensures New("\U{30E1}") == KATAKANA
  {
    assert Scan("\U{30E1}") == Builder([0], map[], [Utf16Char(0, 3)], 3, 3, 0) by {
      ScanSnoc("", '\U{30E1}');
      assert "" + "\U{30E1}" == "\U{30E1}";
    }
  }

  /** With `>=`, UTF-16 column 0 of a line starting with a multi-byte
      character maps to byte 2, inside the character, so `offset` does not
      undo `line_col` at offset 0; the corrected conversion does. */
  lemma AsWrittenOffsetMissesLineStart()
    ensures LineColOfAsWritten(KATAKANA, 0) == LineCol(0, 0)
    ensures OffsetAsWritten(KATAKANA, LineCol(0, 0)) == 2
    ensures Offset(KATAKANA, LineColOf(KATAKANA, 0)) == 0
  {
  }

  /** A single four-byte character, a UTF-16 surrogate pair. */
  const EMOJI := LineIndex([0], map[0 := [Utf16Char(0, 4)]])

  lemma EmojiIndex()
    ensures New("\U{1F600}") == EMOJI
  {
    assert Scan("\U{1F600}") == Builder([0], map[], [Utf16Char(0, 4)], 4, 4, 0) by {
      ScanSnoc("", '\U{1F600}');
      assert "" + "\U{1F600}" == "\U{1F600}";
    }
  }

  /** After a four-byte character the as-written column is 1, one short of
      the character's two UTF-16 units; the corrected column is 2. */
  lemma AsWrittenColumnUndercountsSurrogatePair()
    ensures Utf16Length("\U{1F600}") == 2
    ensures LineColOfAsWritten(EMOJI, 4) == LineCol(0, 1)
    ensures LineColOf(EMOJI, 4) == LineCol(0, 2)
  {
  }
}
