/** Hand-written token wrappers: comment kinds, whitespace, and the quote
    structure and value of string literals. Token text is the UTF-8 bytes
    of the token; every offset is a byte offset. */
module Tokens {
  import opened Wrappers
  import opened TextSize
  import opened Seqs
  import opened Syntax

  // ---------------------------------------------------------------------
  // Kind-checked casts (`AstToken::cast`)

  type CommentToken = t: Tree | t.kind == COMMENT
    witness Tree(COMMENT, TextRange(0, 0), [], [])
  type WhitespaceToken = t: Tree | t.kind == WHITESPACE
    witness Tree(WHITESPACE, TextRange(0, 0), [], [])
  type StringToken = t: Tree | t.kind == STRING
    witness Tree(STRING, TextRange(0, 0), [], [])
  type RawStringToken = t: Tree | t.kind == RAW_STRING
    witness Tree(RAW_STRING, TextRange(0, 0), [], [])

  function CastComment(t: Tree): (r: Option<CommentToken>)
    ensures r.Some? <==> t.kind == COMMENT
    ensures r.Some? ==> r.value == t
  {
    if t.kind == COMMENT then Some(t) else None
  }

  function CastWhitespace(t: Tree): (r: Option<WhitespaceToken>)
    ensures r.Some? <==> t.kind == WHITESPACE
    ensures r.Some? ==> r.value == t
  {
    if t.kind == WHITESPACE then Some(t) else None
  }

  function CastString(t: Tree): (r: Option<StringToken>)
    ensures r.Some? <==> t.kind == STRING
    ensures r.Some? ==> r.value == t
  {
    if t.kind == STRING then Some(t) else None
  }

  function CastRawString(t: Tree): (r: Option<RawStringToken>)
    ensures r.Some? <==> t.kind == RAW_STRING
    ensures r.Some? ==> r.value == t
  {
    if t.kind == RAW_STRING then Some(t) else None
  }

  // ---------------------------------------------------------------------
  // Comments

  datatype CommentShape = Line | Block {
    predicate IsLine()
      ensures IsLine() <==> !IsBlock()
    {
      this == Line
    }

    predicate IsBlock()
      ensures IsBlock() <==> this != Line
    {
      this == Block
    }
  }

  datatype CommentPlacement = Inner | Outer

  datatype CommentKind = CommentKind(shape: CommentShape, doc: Option<CommentPlacement>)

  const SLASH: byte := 0x2F
  const STAR: byte := 0x2A
  const EXCLAMATION: byte := 0x21

  /** The prefix table, searched in this order: the four doc-comment
      prefixes come before the plain line and block prefixes they extend. */
  const CommentPrefixToKind: seq<(seq<byte>, CommentKind)> := [
    ([SLASH, SLASH, SLASH], CommentKind(Line, Some(Outer))),
    ([SLASH, SLASH, EXCLAMATION], CommentKind(Line, Some(Inner))),
    ([SLASH, STAR, STAR], CommentKind(Block, Some(Outer))),
    ([SLASH, STAR, EXCLAMATION], CommentKind(Block, Some(Inner))),
    ([SLASH, SLASH], CommentKind(Line, None)),
    ([SLASH, STAR], CommentKind(Block, None))
  ]

  /** `kind_by_prefix`: the kind of the first table entry whose prefix the
      text starts with; panics when none does. Stated by the bytes the text
      starts with rather than by the table. */
  function KindByPrefix(text: seq<byte>): (r: Result<CommentKind, Fault>)
    ensures r.Ok? <==> StartsWith(text, [SLASH, SLASH]) || StartsWith(text, [SLASH, STAR])
    ensures r.Err? ==> r.error == BadCommentText
    ensures r.Ok? ==> (r.value.shape == Line <==> StartsWith(text, [SLASH, SLASH]))
    ensures r.Ok? ==> (r.value.doc == Some(Outer) <==>
                         StartsWith(text, [SLASH, SLASH, SLASH]) || StartsWith(text, [SLASH, STAR, STAR]))
    ensures r.Ok? ==> (r.value.doc == Some(Inner) <==>
                         StartsWith(text, [SLASH, SLASH, EXCLAMATION]) || StartsWith(text, [SLASH, STAR, EXCLAMATION]))
  {
    PrefixFacts(text);
    KindFrom(text, 0)
  }

  /** The table search of `kind_by_prefix`, from entry `i` on. */
  function KindFrom(text: seq<byte>, i: nat): Result<CommentKind, Fault>
    decreases |CommentPrefixToKind| - i
  {
    if i >= |CommentPrefixToKind| then Err(BadCommentText)
    else if StartsWith(text, CommentPrefixToKind[i].0) then Ok(CommentPrefixToKind[i].1)
    else KindFrom(text, i + 1)
  }

  /** A three-byte prefix implies its two-byte prefix. */
  lemma PrefixFacts(text: seq<byte>)
    ensures StartsWith(text, [SLASH, SLASH, SLASH]) ==> StartsWith(text, [SLASH, SLASH])
    ensures StartsWith(text, [SLASH, SLASH, EXCLAMATION]) ==> StartsWith(text, [SLASH, SLASH])
    ensures StartsWith(text, [SLASH, STAR, STAR]) ==> StartsWith(text, [SLASH, STAR])
    ensures StartsWith(text, [SLASH, STAR, EXCLAMATION]) ==> StartsWith(text, [SLASH, STAR])
  {
    if |text| >= 3 {
      assert text[..2] == text[..3][..2];
    }
  }

  /** `prefix_by_kind`: total over the six kinds, the prefix it returns is
      the table's entry for the kind, and it classifies back to the same
      kind. */
  function PrefixByKind(kind: CommentKind): (r: seq<byte>)
    ensures (r, kind) in CommentPrefixToKind
    ensures KindByPrefix(r) == Ok(kind)
  {
    match kind
    case CommentKind(Line, Some(Outer)) => [SLASH, SLASH, SLASH]
    case CommentKind(Line, Some(Inner)) => [SLASH, SLASH, EXCLAMATION]
    case CommentKind(Block, Some(Outer)) => [SLASH, STAR, STAR]
    case CommentKind(Block, Some(Inner)) => [SLASH, STAR, EXCLAMATION]
    case CommentKind(Line, None) => [SLASH, SLASH]
    case CommentKind(Block, None) => [SLASH, STAR]
  }

  /** `Comment::kind`. */
  function CommentKindOf(c: CommentToken): Result<CommentKind, Fault> {
    KindByPrefix(c.text)
  }

  /** `Comment::prefix`: the table's prefix for the comment's kind, which
      the comment's text starts with. */
  function CommentPrefix(c: CommentToken): (r: Result<seq<byte>, Fault>)
    ensures r.Ok? <==> CommentKindOf(c).Ok?
    ensures r.Ok? ==> (r.value, CommentKindOf(c).value) in CommentPrefixToKind
    ensures r.Ok? ==> StartsWith(c.text, r.value)
  {
    match CommentKindOf(c)
    case Err(e) => Err(e)
    case Ok(k) =>
      PrefixFacts(c.text);
      Ok(PrefixByKind(k))
  }

  // ---------------------------------------------------------------------
  // Whitespace

  /** `Whitespace::spans_multiple_lines`: find the first newline, then look
      for another after it. */
  function SpansMultipleLines(ws: WhitespaceToken): (r: bool)
    ensures r <==> Count(ws.text, NEWLINE) >= 2
  {
    match FindFirst(ws.text, NEWLINE)
    case None =>
      CountZero(ws.text, NEWLINE);
      false
    case Some(idx) =>
      CountAround(ws.text, idx, NEWLINE);
      CountZero(ws.text[..idx], NEWLINE);
      CountZero(ws.text[idx + 1..], NEWLINE);
      NEWLINE in ws.text[idx + 1..]
  }

  // ---------------------------------------------------------------------
  // Quotes

  datatype QuoteOffsets = QuoteOffsets(openQuote: TextRange, closeQuote: TextRange, contents: TextRange)

  /** `q` is the quote structure of `text` placed at offset `base`: the
      opening range runs from `base` through the first quote, the closing
      range from the last quote to the end, the contents lie between, and
      the first and last quotes are distinct. */
  predicate Delimits(q: QuoteOffsets, text: seq<byte>, base: nat) {
    && q.openQuote == TextRange(base, q.contents.start)
    && q.closeQuote == TextRange(q.contents.end, base + |text|)
    && base < q.contents.start <= q.contents.end < base + |text|
    && text[q.contents.start - 1 - base] == QUOTE
    && QUOTE !in text[..q.contents.start - 1 - base]
    && text[q.contents.end - base] == QUOTE
    && QUOTE !in text[q.contents.end - base + 1..]
  }

  /** `QuoteOffsets::new`: absent when the text holds fewer than two quotes. */
  function NewQuoteOffsets(literal: seq<byte>): (r: Option<QuoteOffsets>)
    ensures r.None? <==> Count(literal, QUOTE) < 2
    ensures r.Some? ==> Delimits(r.value, literal, 0)
  {
    match FindFirst(literal, QUOTE)
    case None =>
      CountZero(literal, QUOTE);
      None
    case Some(left) =>
      var right := FindLast(literal, QUOTE).value;
      CountAround(literal, left, QUOTE);
      CountZero(literal[..left], QUOTE);
      if left == right then
        CountZero(literal[left + 1..], QUOTE);
        None
      else
        assert left < right;
        assert QUOTE in literal[left + 1..] by {
          assert literal[left + 1..][right - left - 1] == QUOTE;
        }
        CountZero(literal[left + 1..], QUOTE);
        CountAround(literal[left + 1..], right - left - 1, QUOTE);
        Some(QuoteOffsets(TextRange(0, left + 1), TextRange(right, |literal|), TextRange(left + 1, right)))
  }

  /** `HasQuotes::quote_offsets`: the quote offsets of the token's text,
      moved to the token's absolute start. */
  function QuoteOffsetsOf(tok: Tree): (r: Option<QuoteOffsets>)
    ensures r.None? <==> Count(tok.text, QUOTE) < 2
    ensures r.Some? ==> Delimits(r.value, tok.text, tok.range.start)
  {
    match NewQuoteOffsets(tok.text)
    case None => None
    case Some(q) =>
      var o := tok.range.start;
      Some(QuoteOffsets(q.openQuote.Shift(o), q.closeQuote.Shift(o), q.contents.Shift(o)))
  }

  /** `open_quote_text_range`: from the token start through its first quote. */
  function OpenQuoteRange(tok: Tree): (r: Option<TextRange>)
    ensures r.None? <==> Count(tok.text, QUOTE) < 2
    ensures r.Some? ==> r.value.start == tok.range.start < r.value.end <= tok.range.start + |tok.text|
    ensures r.Some? ==> tok.text[r.value.end - 1 - tok.range.start] == QUOTE
    ensures r.Some? ==> QUOTE !in tok.text[..r.value.end - 1 - tok.range.start]
  {
    match QuoteOffsetsOf(tok)
    case None => None
    case Some(q) => Some(q.openQuote)
  }

  /** `close_quote_text_range`: from the token's last quote to its end. */
  function CloseQuoteRange(tok: Tree): (r: Option<TextRange>)
    ensures r.None? <==> Count(tok.text, QUOTE) < 2
    ensures r.Some? ==> tok.range.start < r.value.start < r.value.end == tok.range.start + |tok.text|
    ensures r.Some? ==> tok.text[r.value.start - tok.range.start] == QUOTE
    ensures r.Some? ==> QUOTE !in tok.text[r.value.start - tok.range.start + 1..]
  {
    match QuoteOffsetsOf(tok)
    case None => None
    case Some(q) => Some(q.closeQuote)
  }

  /** `text_range_between_quotes`: strictly between the first and the last
      quote. */
  function RangeBetweenQuotes(tok: Tree): (r: Option<TextRange>)
    ensures r.None? <==> Count(tok.text, QUOTE) < 2
    ensures r.Some? ==> tok.range.start < r.value.start <= r.value.end < tok.range.start + |tok.text|
    ensures r.Some? ==> tok.text[r.value.start - 1 - tok.range.start] == QUOTE
    ensures r.Some? ==> QUOTE !in tok.text[..r.value.start - 1 - tok.range.start]
    ensures r.Some? ==> tok.text[r.value.end - tok.range.start] == QUOTE
    ensures r.Some? ==> QUOTE !in tok.text[r.value.end - tok.range.start + 1..]
  {
    match QuoteOffsetsOf(tok)
    case None => None
    case Some(q) => Some(q.contents)
  }

  /** The three quote ranges of a well-formed token are adjacent and
      together cover exactly the token's range. */
  lemma {:induction false} QuoteRangesPartition(tok: Tree)
    requires tok.range.Valid() && |tok.text| == tok.range.Len()
    requires Count(tok.text, QUOTE) >= 2
    ensures OpenQuoteRange(tok).Some? && CloseQuoteRange(tok).Some? && RangeBetweenQuotes(tok).Some?
    ensures OpenQuoteRange(tok).value.start == tok.range.start
    ensures OpenQuoteRange(tok).value.end == RangeBetweenQuotes(tok).value.start
    ensures RangeBetweenQuotes(tok).value.end == CloseQuoteRange(tok).value.start
    ensures CloseQuoteRange(tok).value.end == tok.range.end
  {
    var q := QuoteOffsetsOf(tok).value;
    assert Delimits(q, tok.text, tok.range.start);
  }

  // ---------------------------------------------------------------------
  // String values

  /** `String::value`: the text between the quotes, unescaped. The escape
      decoder (rustc_lexer's `unescape_str`) is not part of this model and
      is the parameter `unescape`, which reports a malformed escape as
      `None`. */
  function StringValue(tok: StringToken, unescape: seq<byte> -> Option<seq<byte>>): (r: Option<seq<byte>>)
    ensures Count(tok.text, QUOTE) < 2 ==> r.None?
    ensures Count(tok.text, QUOTE) >= 2 ==>
      var c := RangeBetweenQuotes(tok).value;
      r == unescape(tok.text[c.start - tok.range.start .. c.end - tok.range.start])
  {
    match RangeBetweenQuotes(tok)
    case None => None
    case Some(c) => unescape(tok.text[c.start - tok.range.start .. c.end - tok.range.start])
  }

  /** `RawString::value`: the bytes between the first and the last quote,
      verbatim; the token text is the opening part, the value, and the
      closing part. */
  function RawStringValue(tok: RawStringToken): (r: Option<seq<byte>>)
    ensures r.None? <==> Count(tok.text, QUOTE) < 2
    ensures r.Some? ==> RangeBetweenQuotes(tok).Some? && |r.value| == RangeBetweenQuotes(tok).value.Len()
    ensures r.Some? ==>
      var k := RangeBetweenQuotes(tok).value.start - tok.range.start;
      tok.text == tok.text[..k] + r.value + tok.text[k + |r.value|..]
  {
    match RangeBetweenQuotes(tok)
    case None => None
    case Some(c) =>
      var v := tok.text[c.start - tok.range.start .. c.end - tok.range.start];
      assert tok.text == tok.text[..c.start - tok.range.start] + v + tok.text[c.end - tok.range.start..];
      Some(v)
  }

  /** `RawString::map_range_up` as written: it checks the range against the
      ABSOLUTE contents range although the range it is given is relative to
      the contents, then shifts it by the contents start, as the corrected
      version does. */
  function MapRangeUpAsWritten(tok: RawStringToken, range: TextRange): (r: Result<Option<TextRange>, Fault>)
    ensures r == Ok(None) <==> Count(tok.text, QUOTE) < 2
    ensures r.Err? <==> Count(tok.text, QUOTE) >= 2 && !RangeBetweenQuotes(tok).value.ContainsRange(range)
    ensures r.Err? ==> r.error == RangeOutsideContents
    ensures r.Ok? && r.value.Some? ==>
      && r.value.value.start == RangeBetweenQuotes(tok).value.start + range.start
      && r.value.value.end == RangeBetweenQuotes(tok).value.start + range.end
  {
    match RangeBetweenQuotes(tok)
    case None => Ok(None)
    case Some(contents) =>
      if !contents.ContainsRange(range) then Err(RangeOutsideContents)
      else Ok(Some(range.Shift(contents.start)))
  }

  /** The check as written rejects every range that starts at the
      beginning of the contents: the absolute contents start after the
      token's first byte, so never at offset 0. */
  lemma {:induction false} MapRangeUpAsWrittenRejectsContentsStart(tok: RawStringToken, len: nat)
    requires Count(tok.text, QUOTE) >= 2
    ensures MapRangeUpAsWritten(tok, TextRange(0, len)) == Err(RangeOutsideContents)
  {
    var c := RangeBetweenQuotes(tok).value;
    assert c.start > 0;
  }

  /** `RawString::map_range_up` with the check it evidently intends: the
      range, relative to the contents, must lie within `[0, contents length)`;
      it is then moved to the contents' absolute position. */
  function MapRangeUp(tok: RawStringToken, range: TextRange): (r: Result<Option<TextRange>, Fault>)
    ensures r == Ok(None) <==> Count(tok.text, QUOTE) < 2
    ensures r.Err? ==> r.error == RangeOutsideContents
    ensures Count(tok.text, QUOTE) >= 2 ==>
      (r.Ok? <==> range.end <= RangeBetweenQuotes(tok).value.Len())
    ensures r.Ok? && r.value.Some? ==>
      && r.value.value.start == RangeBetweenQuotes(tok).value.start + range.start
      && r.value.value.end == RangeBetweenQuotes(tok).value.start + range.end
    ensures r.Ok? && r.value.Some? && range.Valid() ==>
      RangeBetweenQuotes(tok).value.ContainsRange(r.value.value)
  {
    match RangeBetweenQuotes(tok)
    case None => Ok(None)
    case Some(contents) =>
      if !UpTo(contents.Len()).ContainsRange(range) then Err(RangeOutsideContents)
      else Ok(Some(range.Shift(contents.start)))
  }
}
