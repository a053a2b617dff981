/** Highlighting inside raw string literals passed as `ra_fixture`
    arguments: the literal's contents are highlighted as a Rust file of
    their own and the results are moved into the literal, framed by its two
    quote ranges. */
module Injection {
  import opened Wrappers
  import opened TextSize
  import opened Seqs
  import opened Syntax
  import opened Tokens
  import opened HighlightTags
  import opened Semantics

  const FIXTURE_PREFIX: string := "ra_fixture"

  /** The call-site condition: `expanded` is an argument of a call whose
      active parameter exists and is named `ra_fixture…`. */
  predicate IsFixtureArgument(sema: Sema, expanded: Element) {
    match sema.callInfo(expanded)
    case None => false
    case Some(info) =>
      match info.activeParameter
      case None => false
      case Some(idx) =>
        idx < |info.parameterNames| && StartsWith(info.parameterNames[idx], FIXTURE_PREFIX)
  }

  /** A nested range the contents of `literal` can hold: it ends within the
      contents (the check `map_range_up` asserts). */
  predicate FitsContents(literal: RawStringToken, h: HighlightedRange)
    requires Count(literal.text, QUOTE) >= 2
  {
    h.range.end <= RangeBetweenQuotes(literal).value.Len()
  }

  predicate AllFit(literal: RawStringToken, nested: seq<HighlightedRange>)
    requires Count(literal.text, QUOTE) >= 2
  {
    forall i :: 0 <= i < |nested| ==> FitsContents(literal, nested[i])
  }

  /** The loop over the nested highlights: each range is mapped up into the
      literal; a range `map_range_up` cannot place is dropped, and one it
      rejects is a panic. */
  function MapNested(literal: RawStringToken, nested: seq<HighlightedRange>): (r: Result<seq<HighlightedRange>, Fault>)
    decreases |nested|
    ensures Count(literal.text, QUOTE) < 2 ==> r == Ok([])
    ensures Count(literal.text, QUOTE) >= 2 ==> (r.Ok? <==> AllFit(literal, nested))
    ensures r.Err? ==> r.error == RangeOutsideContents
    ensures Count(literal.text, QUOTE) >= 2 && r.Ok? ==>
      var c := RangeBetweenQuotes(literal).value;
      && |r.value| == |nested|
      && forall i :: 0 <= i < |nested| ==>
           r.value[i] == nested[i].(range := nested[i].range.Shift(c.start))
  {
    if |nested| == 0 then Ok([])
    else
      var h := nested[0];
      match MapRangeUp(literal, h.range)
      case Err(f) => Err(f)
      case Ok(None) => MapNested(literal, nested[1..])
      case Ok(Some(range)) =>
        match MapNested(literal, nested[1..])
        case Err(f) => Err(f)
        case Ok(rest) => Ok([h.(range := range)] + rest)
  }

  /** An injection happens: the literal is a fixture argument and has a
      value. */
  predicate Injects(sema: Sema, literal: RawStringToken, expanded: Element) {
    IsFixtureArgument(sema, expanded) && Count(literal.text, QUOTE) >= 2
  }

  /** The mapped nested highlights between the literal's two quote ranges,
      both highlighted as a string literal. */
  function Framed(literal: RawStringToken, mapped: seq<HighlightedRange>): (out: seq<HighlightedRange>)
    requires Count(literal.text, QUOTE) >= 2
    ensures |out| == |mapped| + 2
    ensures out[0] == HighlightedRange(OpenQuoteRange(literal).value, Plain(StringLiteral), None)
    ensures out[|out| - 1] == HighlightedRange(CloseQuoteRange(literal).value, Plain(StringLiteral), None)
    ensures out[1..|out| - 1] == mapped
  {
    var open := HighlightedRange(OpenQuoteRange(literal).value, Plain(StringLiteral), None);
    var close := HighlightedRange(CloseQuoteRange(literal).value, Plain(StringLiteral), None);
    [open] + mapped + [close]
  }

  /** The emission once the literal is known to be a fixture with a value:
      the mapped nested highlights framed by the quote ranges, or the panic
      of a nested range the contents cannot hold. */
  function Inject(literal: RawStringToken, nested: seq<HighlightedRange>): (r: Result<seq<HighlightedRange>, Fault>)
    requires Count(literal.text, QUOTE) >= 2
    ensures r.Ok? <==> AllFit(literal, nested)
    ensures r.Err? ==> r.error == RangeOutsideContents
    ensures r.Ok? ==>
      var c := RangeBetweenQuotes(literal).value;
      && |r.value| == |nested| + 2
      && r.value[0] == HighlightedRange(OpenQuoteRange(literal).value, Plain(StringLiteral), None)
      && r.value[|r.value| - 1] == HighlightedRange(CloseQuoteRange(literal).value, Plain(StringLiteral), None)
      && forall i :: 0 <= i < |nested| ==>
           r.value[i + 1] == nested[i].(range := nested[i].range.Shift(c.start))
  {
    match MapNested(literal, nested)
    case Err(f) => Err(f)
    case Ok(mapped) =>
      var out := Framed(literal, mapped);
      forall i | 0 <= i < |mapped|
        ensures out[i + 1] == mapped[i]
      {
        assert out[1..|out| - 1][i] == mapped[i];
      }
      Ok(out)
  }

  /** `highlight_injection`: `Ok(None)` when the literal is not a fixture
      argument or has no value (nothing is emitted); otherwise the
      open-quote range, the nested highlights of the value mapped into the
      literal, and the close-quote range, in that order. */
  function HighlightInjection(sema: Sema, literal: RawStringToken, expanded: Element): (r: Result<Option<seq<HighlightedRange>>, Fault>)
    ensures (r.Ok? && r.value.None?) <==> !Injects(sema, literal, expanded)
    ensures r.Ok? && r.value.Some? ==> Injects(sema, literal, expanded)
    ensures Injects(sema, literal, expanded) ==>
      match Inject(literal, sema.nestedHighlight(RawStringValue(literal).value))
      case Err(f) => r == Err(f)
      case Ok(out) => r == Ok(Some(out))
  {
    if !IsFixtureArgument(sema, expanded) then Ok(None)
    else
      match RawStringValue(literal)
      case None => Ok(None)
      case Some(value) =>
        match Inject(literal, sema.nestedHighlight(value))
        case Err(f) => Err(f)
        case Ok(out) => Ok(Some(out))
  }

  /** Every range an injection emits lies inside the literal, provided the
      nested analysis reports valid ranges: the quote ranges frame the
      mapped ones, which lie between the quotes. */
  lemma {:induction false} InjectionStaysInLiteral(literal: RawStringToken, nested: seq<HighlightedRange>)
    requires literal.range.Valid() && |literal.text| == literal.range.Len()
    requires Count(literal.text, QUOTE) >= 2
    requires Inject(literal, nested).Ok?
    requires forall i :: 0 <= i < |nested| ==> nested[i].range.Valid()
    ensures var out := Inject(literal, nested).value;
      forall i :: 0 <= i < |out| ==> literal.range.ContainsRange(out[i].range)
    ensures var out := Inject(literal, nested).value;
      forall i :: 0 < i < |out| - 1 ==> RangeBetweenQuotes(literal).value.ContainsRange(out[i].range)
  {
    var out := Inject(literal, nested).value;
    var c := RangeBetweenQuotes(literal).value;
    QuoteRangesPartition(literal);
    assert AllFit(literal, nested);
    forall i | 0 < i < |out| - 1
      ensures c.ContainsRange(out[i].range)
    {
      assert FitsContents(literal, nested[i - 1]);
      assert out[i].range == nested[i - 1].range.Shift(c.start);
    }
  }
}
