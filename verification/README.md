# Syntax highlighting, line index and text edits of rust-analyzer, in Dafny

This project models four pieces of rust-analyzer (the `ra_*` crates):

- **Hand-written token wrappers** (`ra_syntax/src/ast/tokens.rs`):
  - the kind-checked casts;
  - comment kinds and their prefix table;
  - multi-line whitespace;
  - the quote structure of string literals;
  - raw-string values;
  - `map_range_up`.
- **Syntax highlighting** (`ra_ide/src/syntax_highlighting.rs`):
  - `highlight`, a walk over the preorder enter/leave events of a syntax tree. It threads the per-function shadow counts of local bindings, the macro call being walked and the highlighted ranges emitted so far.
  - `macro_call_range`.
  - `highlight_element` with its shadow counting.
  - `highlight_name` and `highlight_name_by_syntax`.
  - `highlight_injection`, which highlights `ra_fixture` raw strings as nested Rust.
- **Line index** (`ra_ide_db/src/line_index.rs`):
  - the newline table and the per-line record of multi-byte characters;
  - conversion between byte offsets and (line, UTF-16 column);
  - splitting a range at line starts.
- **Atomic text edits** (`ra_text_edit/src/lib.rs`): `replace`, `delete`, `insert` and `apply`.

Name resolution, macro expansion, call information, the analysis of a nested snippet, the binding hasher and the covering-element lookup are outside the model. They are function-valued fields of `Semantics.Sema`, so every property holds whatever they answer. A failing `assert!`, `panic!`, `unwrap()` or `TextRange::new` is a `Wrappers.Fault` carried in a `Result`.

Layout, one module per file:

- `wrappers`, `text_size`, `seqs`: option/result types, byte ranges and sequence counting.
- `syntax`: trees, elements with their ancestors, preorder events.
- `tokens`: the token wrappers.
- `text_edit`: atomic edits.
- `line_index`: the line index, with its reference theorems.
- `line_index_examples`: the unit tests of `line_index.rs`, restated as lemmas.
- `highlight_tags`, `semantics`: highlight values and the oracles.
- `classify`: `highlight_element` and the shadow-count theorems.
- `injection`, `macro_range`: `highlight_injection` and `macro_call_range`.
- `walker`: the loop of `highlight`, one event at a time, and its fold lemmas.
- `emission`, `highlight`: `highlight` itself and where the ranges it emits lie.

## Model

| member | source | states |
|---|---|---|
| Tokens.CastComment | crates/ra_syntax/src/ast/tokens.rs:14-20 | a comment wrapper exists exactly for COMMENT tokens and wraps the token itself |
| Tokens.CastWhitespace | crates/ra_syntax/src/ast/tokens.rs:96-102 | a whitespace wrapper exists exactly for WHITESPACE tokens |
| Tokens.CastString | crates/ra_syntax/src/ast/tokens.rs:175-181 | a string wrapper exists exactly for STRING tokens |
| Tokens.CastRawString | crates/ra_syntax/src/ast/tokens.rs:208-214 | a raw-string wrapper exists exactly for RAW_STRING tokens |
| Tokens.CommentShape.IsLine | crates/ra_syntax/src/ast/tokens.rs:48-55 | `is_line` and `is_block` are exact complements |
| Tokens.KindByPrefix | crates/ra_syntax/src/ast/tokens.rs:64-83 | succeeds iff the text starts with `//` or `/*`, otherwise panics. The shape is Line iff the prefix is `//`; the text is an outer doc comment iff it starts with `///` or `/**`, an inner one iff `//!` or `/*!`. So the first matching table entry wins, doc prefixes before the plain ones |
| Tokens.PrefixByKind | crates/ra_syntax/src/ast/tokens.rs:64-92 | total over the six kinds; the prefix is the table entry paired with the kind, and `kind_by_prefix` of it gives the kind back |
| Tokens.CommentPrefix | crates/ra_syntax/src/ast/tokens.rs:26-33 | a comment's prefix exists exactly when its kind does, is the prefix-table entry for that kind, and the comment's text starts with it |
| Tokens.SpansMultipleLines | crates/ra_syntax/src/ast/tokens.rs:108-112 | true iff the whitespace contains at least two newlines |
| Tokens.NewQuoteOffsets | crates/ra_syntax/src/ast/tokens.rs:120-139 | absent iff the text has fewer than two quotes. Otherwise the opening range ends just past the first quote, the closing range starts at the last quote, and the contents lie between them |
| Tokens.QuoteOffsetsOf | crates/ra_syntax/src/ast/tokens.rs:142-152 | the same structure, moved to the token's absolute start |
| Tokens.OpenQuoteRange | crates/ra_syntax/src/ast/tokens.rs:153-155 | runs from the token start through the first quote, with no quote before it |
| Tokens.CloseQuoteRange | crates/ra_syntax/src/ast/tokens.rs:157-159 | runs from the last quote to the token end, with no quote after it |
| Tokens.RangeBetweenQuotes | crates/ra_syntax/src/ast/tokens.rs:161-163 | lies strictly between the first and the last quote |
| Tokens.QuoteRangesPartition | crates/ra_syntax/src/ast/tokens.rs:129-138 | for a token with two quotes, the open, contents and close ranges are adjacent and cover exactly the token's range |
| Tokens.StringValue | crates/ra_syntax/src/ast/tokens.rs:187-203 | absent without two quotes; otherwise the escape decoder's answer on the bytes between the quotes |
| Tokens.RawStringValue | crates/ra_syntax/src/ast/tokens.rs:220-225 | absent iff fewer than two quotes; otherwise the bytes between the quotes, verbatim, so the token text is prefix + value + suffix |
| Tokens.MapRangeUpAsWritten | crates/ra_syntax/src/ast/tokens.rs:228-233 | as written: `None` iff there are no quote offsets; panics iff the absolute contents range does not contain the given range; otherwise the range shifted by the contents start |
| Tokens.MapRangeUpAsWrittenRejectsContentsStart | crates/ra_syntax/src/ast/tokens.rs:229-233 | as written, every range starting at relative offset 0 panics |
| Tokens.MapRangeUp | crates/ra_syntax/src/ast/tokens.rs:229-233 | corrected: `None` iff there are no quote offsets; succeeds iff the relative range ends within the contents length. The result is the range shifted by the contents start and lies inside the contents |
| TextEdit.Replace | crates/ra_text_edit/src/lib.rs:18-20 | the edit deletes the given range and inserts the given text |
| TextEdit.Delete | crates/ra_text_edit/src/lib.rs:22-24 | the edit deletes the given range and inserts nothing |
| TextEdit.Insert | crates/ra_text_edit/src/lib.rs:26-28 | an insert replaces the empty range at the offset |
| TextEdit.Apply | crates/ra_text_edit/src/lib.rs:30-35 | the result length is `len - (end - start) + |insert|`. Bytes before `start` are kept, the inserted text follows, and the bytes after `end` follow it, shifted |
| TextEdit.InsertNothingIsIdentity | crates/ra_text_edit/src/lib.rs:26-35 | inserting the empty text changes nothing |
| TextEdit.ReplaceBySameIsIdentity | crates/ra_text_edit/src/lib.rs:18-35 | replacing a range by its own contents changes nothing |
| TextEdit.DeleteRemovesRange | crates/ra_text_edit/src/lib.rs:22-35 | deleting `[s, e)` leaves `text[..s] + text[e..]` |
| TextEdit.UndoRestores | crates/ra_text_edit/src/lib.rs:30-35 | putting the deleted bytes back over the inserted ones restores the text |
| LineIndex.UpperBound | crates/ra_ide_db/src/line_index.rs:78 | the number of sorted entries `<= x` |
| LineIndex.LowerBound | crates/ra_ide_db/src/line_index.rs:92 | the number of sorted entries `< x` |
| LineIndex.NewIsIndexOf | crates/ra_ide_db/src/line_index.rs:36-75 | `new` gives a valid index. `newlines` starts at 0, is strictly increasing and has one entry per `\n`: each entry is the offset just past a newline, and each newline gives one. Recorded lines exist and are non-empty, and each line's recorded characters are exactly the multi-byte characters of that line of the text, with their byte columns |
| LineIndex.ScanCounters | crates/ra_ide_db/src/line_index.rs:40-58 | after the loop, `curr_row` is the text's byte length, `line` counts the newlines, and the last line start plus `curr_col` is `curr_row` |
| LineIndex.ScanChars | crates/ra_ide_db/src/line_index.rs:49-72 | the pending multi-byte characters are two to four bytes long, in order, disjoint and end by the current column; the saved lines are earlier lines, each with at least one such character |
| LineIndex.ScanLines | crates/ra_ide_db/src/line_index.rs:44-72 | after the loop over any text, the current column is the byte length of the text's last line, the pending characters are that line's multi-byte characters, and each earlier line's saved entry (or its absence) is exactly that line's multi-byte characters |
| LineIndex.NewRecordsLineChars | crates/ra_ide_db/src/line_index.rs:36-75 | one line start per line of the text; `utf16_lines` has an entry for a line iff that line holds a character of more than one UTF-8 byte, and the entry lists exactly those characters, in order, with their byte columns `[start, end)` |
| LineIndex.MultiByteChars | crates/ra_ide_db/src/line_index.rs:61-66 | the reference list of a line's multi-byte characters: empty iff every character of the line is one UTF-8 byte |
| LineIndex.ScanStarts | crates/ra_ide_db/src/line_index.rs:44-48 | every newline yields a line start just past it, and every start after the first comes from a newline |
| LineIndex.AsciiTextHasNoUtf16Lines | crates/ra_ide_db/src/line_index.rs:61-64 | a text of one-byte characters records no multi-byte characters |
| LineIndex.LineColAtEnd | crates/ra_ide_db/src/line_index.rs:36-83 | reference theorem: the end of any text is at line = number of newlines, column = UTF-16 length of the last line |
| LineIndex.LineOfPastLastStart | crates/ra_ide_db/src/line_index.rs:77-79 | an offset past the last line start is on the last line |
| LineIndex.Utf8CorrectionAsWritten | crates/ra_ide_db/src/line_index.rs:104-119 | as written: no correction when the first character does not end by `col`; otherwise the correction is less than `col` minus that character's start |
| LineIndex.Utf8ToUtf16ColAsWritten | crates/ra_ide_db/src/line_index.rs:104-121 | as written: never above the byte column, and the identity on lines without entries |
| LineIndex.Utf16ToUtf8AsWritten | crates/ra_ide_db/src/line_index.rs:123-135 | as written: never below `col`, and `col` itself before the first character's start |
| LineIndex.Utf16ToUtf8ColAsWritten | crates/ra_ide_db/src/line_index.rs:123-138 | as written: never below the UTF-16 column, and the identity on lines without entries |
| LineIndex.LineColOfAsWritten | crates/ra_ide_db/src/line_index.rs:77-83 | as written: the line is the last one starting at or before the offset, and the column is at most the byte distance from that start (equal on lines without entries) |
| LineIndex.OffsetAsWritten | crates/ra_ide_db/src/line_index.rs:85-89 | as written: the line start plus a byte column no smaller than the UTF-16 column |
| LineIndex.CorrectionAsWrittenSumsEnded | crates/ra_ide_db/src/line_index.rs:104-119 | the early `break` of `utf8_to_utf16_col` loses nothing on a well-formed list: the correction is `len - 1` summed over every character ending at or before the column |
| LineIndex.CorrectionGap | crates/ra_ide_db/src/line_index.rs:104-119 | the as-written correction exceeds the corrected one by exactly the number of four-byte characters ending at or before the column |
| LineIndex.FourByteEndedZero | crates/ra_ide_db/src/line_index.rs:104-119 | that number is zero iff no character ending at or before the column is four bytes long |
| LineIndex.Utf8ToUtf16ColsAgree | crates/ra_ide_db/src/line_index.rs:104-121 | the as-written `utf8_to_utf16_col` equals the corrected one iff no four-byte character ends at or before the column; so they agree on every line whose characters are at most three bytes |
| LineIndex.Utf16ToUtf8Agree | crates/ra_ide_db/src/line_index.rs:123-135 | on characters of at most three bytes, the as-written loop of `utf16_to_utf8_col` equals the corrected one iff the corrected byte column is not the start of a recorded character |
| LineIndex.Utf8Correction | crates/ra_ide_db/src/line_index.rs:104-119 | corrected: no correction when the first character does not end by `col`; otherwise the correction is less than `col` minus that character's start |
| LineIndex.Utf16ToUtf8 | crates/ra_ide_db/src/line_index.rs:123-135 | corrected: never below `col`, and `col` itself at or before the first character's start |
| LineIndex.ColumnRoundTrip | crates/ra_ide_db/src/line_index.rs:104-138 | on a character boundary, converting a byte column to UTF-16 and back gives the byte column |
| LineIndex.Utf8ToUtf16Col | crates/ra_ide_db/src/line_index.rs:104-121 | corrected: never above the byte column, and the identity on lines without entries |
| LineIndex.Utf16ToUtf8Col | crates/ra_ide_db/src/line_index.rs:123-138 | corrected: never below the UTF-16 column, and the identity on lines without entries |
| LineIndex.LineOf | crates/ra_ide_db/src/line_index.rs:77-80 | the last line whose start is at or before the offset, and the next line starts after it |
| LineIndex.LineColOf | crates/ra_ide_db/src/line_index.rs:77-83 | corrected `line_col`: that line, and a column at most the byte distance from its start (equal on lines without entries) |
| LineIndex.Offset | crates/ra_ide_db/src/line_index.rs:85-89 | corrected `offset`: the line start plus a byte column no smaller than the UTF-16 column |
| LineIndex.OffsetLineColRoundTrip | crates/ra_ide_db/src/line_index.rs:77-89 | for every offset on a character boundary, `offset(line_col(o)) == o` |
| LineIndex.Cuts | crates/ra_ide_db/src/line_index.rs:91-96 | the cut points are the range start, every line start in `[start, end]`, and the range end, in order |
| LineIndex.Lines | crates/ra_ide_db/src/line_index.rs:91-102 | non-empty, contiguous pieces covering the range from start to end, empty iff the range is. Each piece after the first starts at a line start, and no line start falls strictly inside a piece |
| LineIndex.SplitAtIsChain | crates/ra_ide_db/src/line_index.rs:98-101 | pairing consecutive cut points and dropping empty pairs gives a chain of non-empty adjacent ranges from the first to the last point |
| LineIndex.SplitAtNoElementInside | crates/ra_ide_db/src/line_index.rs:98-101 | no cut point lies strictly inside a piece |
| LineIndexExamples.HelloWorldIndex | crates/ra_ide_db/src/line_index.rs:146-148 | `new("hello\nworld")` has line starts [0, 6] and no multi-byte entries |
| LineIndexExamples.HelloWorldLineCols | crates/ra_ide_db/src/line_index.rs:149-157 | offsets 0-5 are on line 0 at their own column; offsets from 6 are on line 1 at offset - 6 |
| LineIndexExamples.NlHelloWorldIndex | crates/ra_ide_db/src/line_index.rs:159-160 | `new("\nhello\nworld")` has line starts [0, 1, 7] |
| LineIndexExamples.NlHelloWorldLineCols | crates/ra_ide_db/src/line_index.rs:161-165 | the line/column pairs of that test |
| LineIndexExamples.AsciiLiteralIndex | crates/ra_ide_db/src/line_index.rs:175-182 | the ASCII-only text records no multi-byte characters |
| LineIndexExamples.SingleCharIndex | crates/ra_ide_db/src/line_index.rs:185-194 | 'メ' on line 1 is recorded as [17, 20) |
| LineIndexExamples.SingleCharColumns | crates/ra_ide_db/src/line_index.rs:196-206 | 15 → 15 and 22 → 20 to UTF-16; 15 → 15 and 19 → 21 back |
| LineIndexExamples.StringIndex | crates/ra_ide_db/src/line_index.rs:210-220 | the two 'メ' on line 1 are recorded as [17, 20) and [21, 24) |
| LineIndexExamples.StringUtf8ToUtf16 | crates/ra_ide_db/src/line_index.rs:222-228 | 15 → 15, 21 → 19, 25 → 21 on line 1, and 15 → 15 on line 2 |
| LineIndexExamples.StringUtf16ToUtf8 | crates/ra_ide_db/src/line_index.rs:230-236 | as written 15 → 15, 18 → 20, 19 → 23, and 15 → 15 on line 2. The corrected conversion takes 19 to 21, and 21 back to 19 |
| LineIndexExamples.SplitLinesPieces | crates/ra_ide_db/src/line_index.rs:245-250 | `lines([0, 9))` of "a\nbb\nccc\n" is [0,2), [2,5), [5,9) |
| LineIndexExamples.EmptyTextHasNoLines | crates/ra_ide_db/src/line_index.rs:252-257 | the empty range of the empty text yields no piece |
| LineIndexExamples.NewlineIsOneLine | crates/ra_ide_db/src/line_index.rs:259-264 | `lines([0, 1))` of "\n" is the single piece [0, 1) |
| LineIndexExamples.AsWrittenOffsetMissesLineStart | crates/ra_ide_db/src/line_index.rs:123-138 | for "メ", the as-written `offset` of `line_col(0)` is 2, while the corrected one gives 0 back |
| LineIndexExamples.AsWrittenColumnUndercountsSurrogatePair | crates/ra_ide_db/src/line_index.rs:104-121 | for a 4-byte character, the as-written column after it is 1 while its UTF-16 length is 2; the corrected column is 2 |
| Classify.HighlightName | crates/ra_ide/src/syntax_highlighting.rs:259-288 | the tag is Local iff the definition is a local. The only possible modifier is Mutable, present iff the local is `mut` or has a mutable-reference type |
| Classify.HighlightNameBySyntax | crates/ra_ide/src/syntax_highlighting.rs:290-308 | no modifiers; Function when the name has no parent or an unlisted parent kind |
| Classify.FallbackAgreesWithResolution | crates/ra_ide/src/syntax_highlighting.rs:259-308 | for every listed parent kind, the syntactic fallback equals `highlight_name` of the definition that kind declares |
| Classify.HighlightNameElement | crates/ra_ide/src/syntax_highlighting.rs:167-186 | a name is always highlighted. A local definition with a name bumps that name's count and hashes the new count; nothing else touches the map or hashes. Definition is present iff the name is not a constant reference, Mutable iff it resolves to a mutable local, and no other modifier. A resolved name gets `highlight_name`'s tag and modifiers plus Definition for a definition; an unresolved one gets `highlight_name_by_syntax`'s tag with Definition |
| Classify.HighlightNameRefElement | crates/ra_ide/src/syntax_highlighting.rs:189-207 | nothing iff inside an attribute or unresolved. A local reference hashes the current count (0 when absent) and records it without incrementing. Mutable iff it resolves to a mutable local, and no other modifier. A field shorthand is a plain Field; a reference to a definition gets `highlight_name` of it |
| Classify.HighlightOther | crates/ra_ide/src/syntax_highlighting.rs:209-241 | fixed tags for comments, strings, attributes, numbers, bytes and chars. LIFETIME gets Definition iff its parent is LIFETIME_PARAM or LABEL. For keywords, ControlFlow iff break/continue/else/for/if/loop/match/return/while and Unsafe iff `unsafe`. Nothing for other kinds, never Mutable |
| Classify.HighlightElement | crates/ra_ide/src/syntax_highlighting.rs:153-244 | FN_DEF clears the map and yields nothing. A definition counts +1 and hashes the new count, a reference hashes the current count, and nothing else touches the map. Exactly FN_DEF, unresolved or attribute NAME_REFs, and unhighlightable kinds yield nothing. Any other kind gets `HighlightOther`'s highlight with no hash |
| Classify.HighlightElementNames | crates/ra_ide/src/syntax_highlighting.rs:167-207 | NAME dispatches to the NAME branch and NAME_REF to the NAME_REF branch |
| Classify.ShadowStepIsHighlight | crates/ra_ide/src/syntax_highlighting.rs:161-207 | the map `highlight_element` leaves is exactly the shadow update alone: cleared at FN_DEF, +1 for a local definition, the current count recorded for a local reference, unchanged otherwise |
| Classify.CountStep | crates/ra_ide/src/syntax_highlighting.rs:171-177 | outside a function start, one element adds one to exactly the count of the name it defines |
| Classify.ShadowCountsDefinitions | crates/ra_ide/src/syntax_highlighting.rs:161-177 | after any element sequence, a name's count is the number of its local definitions since the last FN_DEF (plus the initial count when there is none) |
| Classify.CountStable | crates/ra_ide/src/syntax_highlighting.rs:161-202 | elements that neither start a function nor define `n` leave `n`'s count unchanged |
| Classify.ReferenceSharesDefinitionHash | crates/ra_ide/src/syntax_highlighting.rs:171-202 | a reference after the latest definition of its name in the same function gets that definition's binding hash |
| Classify.DefinitionHashCountsFromFunctionStart | crates/ra_ide/src/syntax_highlighting.rs:161-177 | after a function start, a definition is hashed with 1 + the number of earlier definitions of its name in that function |
| Injection.MapNested | crates/ra_ide/src/syntax_highlighting.rs:333-338 | succeeds iff every nested range ends within the contents. It maps each nested highlight, in order, to the same highlight and hash at its range shifted by the contents start |
| Injection.Inject | crates/ra_ide/src/syntax_highlighting.rs:325-346 | the open-quote StringLiteral range, then the shifted nested highlights in order, then the close-quote StringLiteral range |
| Injection.HighlightInjection | crates/ra_ide/src/syntax_highlighting.rs:310-349 | emits nothing unless call info, an active parameter, its name starting with `ra_fixture`, and a value all exist. Otherwise it emits exactly `Inject` of the nested highlights of the value, or its panic |
| Injection.InjectionStaysInLiteral | crates/ra_ide/src/syntax_highlighting.rs:325-346 | every emitted range lies inside the literal, and the nested ones between its quotes |
| MacroRange.LastMarkerCons | crates/ra_ide/src/syntax_highlighting.rs:143-148 | the last `!`/IDENT of a sequence is the last one of its tail, or else its head |
| MacroRange.MarkersEnd | crates/ra_ide/src/syntax_highlighting.rs:142-148 | the loop leaves the end of the last `!`/IDENT sibling, or the initial end when there is none |
| MacroRange.PartsOf | crates/ra_ide/src/syntax_highlighting.rs:138-139 | the path, its segment and the segment's name ref are the first children of those kinds, and absent iff one is missing |
| MacroRange.MacroCallRange | crates/ra_ide/src/syntax_highlighting.rs:137-151 | `None` iff there is no path/segment/name ref. Otherwise the range runs from the name ref's start to the end of the last `!`/IDENT from the path on (or the name ref's end), and panics iff that end is before the start |
| MacroRange.ChildrenOrdered | crates/ra_ide/src/syntax_highlighting.rs:143 | siblings of a parsed tree are in order: an earlier one ends before a later one starts |
| MacroRange.MacroCallRangeWithinCall | crates/ra_ide/src/syntax_highlighting.rs:137-151 | in a parsed macro call the span never panics, covers the name ref and lies within the call |
| Walker.Expand | crates/ra_ide/src/syntax_highlighting.rs:109-115 | the descended token, replaced by its parent exactly when it is an IDENT under NAME or NAME_REF |
| Walker.ToHighlight | crates/ra_ide/src/syntax_highlighting.rs:103-118 | outside a macro the element itself. Inside one, something iff the element is a token whose parent is TOKEN_TREE, and then its expansion |
| Walker.Step | crates/ra_ide/src/syntax_highlighting.rs:64-132 | one event of the loop. Events outside the viewport change nothing. Entering a macro call makes it current and pushes its span, or panics as `macro_call_range` does. Leaving one panics unless it is current, then clears it; only this can fail that assertion. Other leaves change nothing; inside a macro, non-argument elements are skipped. The output only grows, the current macro changes only at macro-call events, and apart from an injection at most one range is pushed, at the original element's range |
| Walker.Highlighted | crates/ra_ide/src/syntax_highlighting.rs:127-131 | `highlight_element` on the target: its shadow map is kept, the current macro is untouched, and its highlight, if any, is pushed with its hash at the original element's range |
| Walker.StepEntersElement | crates/ra_ide/src/syntax_highlighting.rs:96-131 | entering any other element in the viewport that is not a raw string and has a target is exactly `Highlighted` on that target |
| Walker.StepEntersRawString | crates/ra_ide/src/syntax_highlighting.rs:119-131 | entering a raw string with a target panics when the target is not a token (`unwrap`); otherwise an injection's panic propagates, an injection pushes its ranges and nothing else, and no injection falls through to `Highlighted` |
| Walker.StepTarget | crates/ra_ide/src/syntax_highlighting.rs:96-128 | the element `highlight_element` runs on at this event, if any: only for an entered non-macro element in the viewport, and then the one `ToHighlight` picks |
| Walker.StepShadow | crates/ra_ide/src/syntax_highlighting.rs:127-131 | one event changes the shadow map exactly by `highlight_element`'s update on its target, and not at all without one |
| Walker.WalkShadow | crates/ra_ide/src/syntax_highlighting.rs:57-132 | the shadow map a walk ends with is `ShadowAfter` over the elements it ran `highlight_element` on, in order, so the counting theorems of `Classify` hold along a walk |
| Highlighting.Highlight | crates/ra_ide/src/syntax_highlighting.rs:34-135 | on a root whose macro calls do not nest, never fails `assert!(current_macro_call == Some(mc))`. On a well-formed tree, when the nested analysis reports valid ranges, every returned range lies inside the root's range |
| Highlighting.HighlightRoot | crates/ra_ide/src/syntax_highlighting.rs:42-55 | the whole file when no range is requested; otherwise a node: the covering element when that is a node, and the covering token's parent, with its own ancestors, when it is a token |
| Highlighting.WalkFromStart | crates/ra_ide/src/syntax_highlighting.rs:57-134 | the walk from the empty state keeps the current macro at `None` and never mismatches when macro calls do not nest, and emits only ranges inside the root on a well-formed tree |
| Highlighting.StepStaysInside | crates/ra_ide/src/syntax_highlighting.rs:70-131 | one event of a well-formed element inside a bound pushes only ranges inside the bound: a macro span lies in the call, an injection in the literal, anything else at the element's own range |
| Highlighting.InjectedInside | crates/ra_ide/src/syntax_highlighting.rs:120-124 | the highlights injected for a well-formed literal lie inside any range containing the literal |
| Highlighting.WalkStaysInside | crates/ra_ide/src/syntax_highlighting.rs:64-132 | walking a well-formed element inside a bound pushes only ranges inside the bound |
| Highlighting.RootOf | crates/ra_ide/src/syntax_highlighting.rs:47-50 | a covering node is the root; a covering token's parent node is |
| Walker.WalkAppend | crates/ra_ide/src/syntax_highlighting.rs:64-132 | walking `a + b` is walking `b` from where `a` ends, and a panic in `a` ends the walk |
| Walker.WalkOutputGrows | crates/ra_ide/src/syntax_highlighting.rs:64-132 | the result vector only grows along a walk |
| Walker.WalkOutsideViewport | crates/ra_ide/src/syntax_highlighting.rs:70-73 | events all outside the viewport leave the state unchanged |
| Walker.MacroSpanComesFirst | crates/ra_ide/src/syntax_highlighting.rs:77-86 | entering a macro call pushes its span before anything the following events push |
| Walker.PreorderSplit | crates/ra_ide/src/syntax_highlighting.rs:64 | walking an element is entering it, walking its children, leaving it |
| Walker.MacroFreeKeepsMacro | crates/ra_ide/src/syntax_highlighting.rs:75-94 | walking a subtree without macro calls keeps the current macro call and never fails the leave assertion |
| Walker.MacroCallsBalance | crates/ra_ide/src/syntax_highlighting.rs:75-94 | from outside any macro, walking a subtree whose macro calls do not nest ends outside any macro and never fails the leave assertion |

## Left out

- Integer widths: offsets, line numbers and shadow counts are unbounded naturals. The source uses `u32` (`TextSize`, the shadow count) and `usize`, so overflow past 2^32 is not modelled. The binding hash is a 64-bit value drawn from an oracle.
- Name resolution (`classify_name`, `classify_name_ref`, `local.name`, `is_mut`, `ty`), `descend_into_macros`, `call_info_for_token`, the nested `Analysis::from_single_file(..).highlight(..)`, `calc_binding_hash` and `covering_element` are foreign code. They are oracles in `Semantics.Sema`. Hash distinctness is not claimed.
- `Semantics::parse` and the parser: trees are inputs. `Syntax.WellFormed` states what a parsed tree guarantees, and only the lemmas that need it assume it.
- `String::value` escape decoding (`rustc_lexer::unescape_str`) is the parameter `unescape` of `Tokens.StringValue`.
- `profile`, the `html` and `tags` modules, `FxHashMap` and superslice's bounds are replaced by a tag enum plus a modifier set, a Dafny map, and `UpperBound`/`LowerBound` over a sorted sequence.
- The `TextEdit`/`TextEditBuilder` module and the multi-edit non-overlap rule are not part of this model.
- TextEdit.Apply: requires `start <= end <= len`, where `replace_range` panics. Char-boundary panics are not modelled, since edited text is bytes.
- LineIndex.Offset: requires the line to exist, where the source indexes `newlines` and panics. LineIndex.OffsetAsWritten does the same.
- LineIndex.LineColOf: `line_col` is modelled with the corrected column conversion. The as-written one is LineIndex.LineColOfAsWritten.
- Highlighting.Highlight: requires that a covering token has a parent node, which rowan guarantees for every token of a parsed file. Its range guarantee also assumes `Emission.NestedRangesValid`: the nested analysis is an oracle, and every `TextRange` it could return has start <= end.
- Renamed for Dafny: `NameClass::Definition` is `Semantics.Defines` and `NameRefClass::Definition` is `Semantics.RefersTo`.
- The injection uses the corrected `Tokens.MapRangeUp` (see Findings). With the as-written check it would panic on every fixture with a nested highlight starting before the literal's absolute content offset (in practice, any highlight at relative offset 0).
- `LineIndex` keeps `newlines` and `utf16_lines` but not their Rust types; `LineIndex.New` builds them by the same loop, one character at a time.

## Findings

| source | as written | input that shows it | evidently intended | confidence | as-written member | corrected member |
|---|---|---|---|---|---|---|
| crates/ra_syntax/src/ast/tokens.rs:229-233 | `map_range_up` asserts that the ABSOLUTE contents range contains a range RELATIVE to the contents | any raw string with two quotes and a nested range `[0, n)`: the contents start after the token start, never at 0, so the assertion fails | check the range against `[0, contents length)`, then shift it by the contents start | not executed | Tokens.MapRangeUpAsWrittenRejectsContentsStart | Tokens.MapRangeUp |
| crates/ra_ide_db/src/line_index.rs:123-138 | `utf16_to_utf8_col` corrects for a character when `col >= c.start`, so a column exactly at a character's start is pushed past it | "メ" at offset 0: `line_col` gives (0, 0) and `offset` of that gives 2. The source's own test expects (1, 19) → 23 although `utf8_to_utf16_col(1, 21) == 19` | correct only for characters starting strictly before `col` (`>`), so that `offset(line_col(o)) == o` on character boundaries | not executed | LineIndexExamples.AsWrittenOffsetMissesLineStart | LineIndex.OffsetLineColRoundTrip |
| crates/ra_ide_db/src/line_index.rs:61-66, 104-121 | the column correction of a multi-byte character is `len_utf8 - 1` (3 for a 4-byte character) although it takes 2 UTF-16 units | "\U{1F600}" at offset 4: the as-written column is 1 | subtract `len_utf8 - len_utf16` | not executed | LineIndexExamples.AsWrittenColumnUndercountsSurrogatePair | LineIndex.LineColAtEnd |
