/** `highlight`: the entry point that picks the root and the viewport and
    runs the walk, and what it guarantees of the ranges it returns. */
module Highlighting {
  import opened Wrappers
  import opened TextSize
  import opened Syntax
  import opened Tokens
  import opened HighlightTags
  import opened Semantics
  import opened MacroRange
  import opened Injection
  import opened Walker
  import opened Emission

  /** `highlight`: walks the root the requested range selects, in the
      requested range or the whole file. On a tree whose macro calls do not
      nest it never fails the assertion on leaving a macro call, and on a
      well-formed tree every range it emits lies inside the root. */
  function Highlight(sema: Sema, file: Tree, rangeToHighlight: Option<TextRange>): (r: Result<seq<HighlightedRange>, Fault>)
    requires rangeToHighlight.Some? ==> TokenHasParent(sema.coveringElement(rangeToHighlight.value))
    ensures MacrosDoNotNest(HighlightRoot(sema, file, rangeToHighlight).tree) ==> r != Err(MacroCallMismatch)
    ensures var root := HighlightRoot(sema, file, rangeToHighlight);
      WellFormed(root.tree) && NestedRangesValid(sema) && r.Ok? ==>
        forall i :: 0 <= i < |r.value| ==> root.Range().ContainsRange(r.value[i].range)
  {
    var root := HighlightRoot(sema, file, rangeToHighlight);
    var viewport := if rangeToHighlight.Some? then rangeToHighlight.value else file.range;
    WalkFromStart(sema, viewport, root);
    match Walk(sema, viewport, START, Preorder(root))
    case Err(f) => Err(f)
    case Ok(t) => Ok(t.out)
  }

  /** The element `highlight` walks: the covering element of the requested
      range, or its parent when it is a token, or else the whole file. */
  function HighlightRoot(sema: Sema, file: Tree, rangeToHighlight: Option<TextRange>): (r: Element)
    requires rangeToHighlight.Some? ==> TokenHasParent(sema.coveringElement(rangeToHighlight.value))
    ensures rangeToHighlight.None? ==> r == Element(file, [])
    ensures rangeToHighlight.Some? ==> !r.IsToken()
    ensures rangeToHighlight.Some? && sema.coveringElement(rangeToHighlight.value).IsToken() ==>
      r == sema.coveringElement(rangeToHighlight.value).Parent().value
    ensures rangeToHighlight.Some? && !sema.coveringElement(rangeToHighlight.value).IsToken() ==>
      r == sema.coveringElement(rangeToHighlight.value)
  {
    match rangeToHighlight
    case Some(range) => RootOf(sema.coveringElement(range))
    case None => Element(file, [])
  }

  /** The two guarantees of a walk from the start state over a root. */
  lemma WalkFromStart(sema: Sema, viewport: TextRange, root: Element)
    ensures MacrosDoNotNest(root.tree) ==> KeepsMacro(Walk(sema, viewport, START, Preorder(root)), None)
    ensures WellFormed(root.tree) && NestedRangesValid(sema) ==>
      AddsWithin(START, Walk(sema, viewport, START, Preorder(root)), root.Range())
  {
    if MacrosDoNotNest(root.tree) {
      MacroCallsBalance(sema, viewport, START, root);
    }
    if WellFormed(root.tree) && NestedRangesValid(sema) {
      WalkStaysInside(sema, viewport, START, root, root.Range());
    }
  }

  /** In a syntax tree every token has a parent node. */
  predicate TokenHasParent(e: Element) {
    e.IsToken() ==> |e.ancestors| > 0 && !e.ancestors[0].kind.IsToken()
  }

  /** A covering node, or the parent of a covering token. */
  function RootOf(e: Element): (r: Element)
    requires TokenHasParent(e)
    ensures !e.IsToken() ==> r == e
    ensures e.IsToken() ==> r == e.Parent().value && !r.IsToken()
  {
    if e.IsToken() then e.Parent().value else e
  }

  // ---------------------------------------------------------------------
  // Where the emitted ranges lie

  /** One event of a well-formed element inside `bound` emits only ranges
      inside `bound`: a macro call's span lies in the call, an injection in
      the literal, anything else at the element's own range. */
  lemma StepStaysInside(sema: Sema, viewport: TextRange, s: State, ev: WalkEvent, bound: TextRange)
    requires WellFormed(ev.elem.tree) && NestedRangesValid(sema) && bound.ContainsRange(ev.elem.Range())
    ensures AddsWithin(s, Step(sema, viewport, s, ev), bound)
  {
    if ev.Enter? && ev.elem.Kind() == MACRO_CALL && Intersects(viewport, ev.elem.Range()) {
      MacroSpanInside(sema, viewport, s, ev.elem, bound);
    } else if Injecting(sema, viewport, s, ev) {
      InjectionInside(sema, viewport, s, ev, bound);
    }
  }

  lemma MacroSpanInside(sema: Sema, viewport: TextRange, s: State, e: Element, bound: TextRange)
    requires WellFormed(e.tree) && bound.ContainsRange(e.Range()) && Intersects(viewport, e.Range()) && e.Kind() == MACRO_CALL
    ensures AddsWithin(s, Step(sema, viewport, s, Enter(e)), bound)
  {
    var m := MacroCallRange(e.tree);
    if m.Ok? && m.value.Some? {
      MacroCallRangeWithinCall(e.tree);
      MacroSpanStep(sema, viewport, s, e, m.value.value, bound);
    } else {
      AppendsWithin(s, Step(sema, viewport, s, Enter(e)), [], bound);
    }
  }

  lemma MacroSpanStep(sema: Sema, viewport: TextRange, s: State, e: Element, span: TextRange, bound: TextRange)
    requires Intersects(viewport, e.Range()) && e.Kind() == MACRO_CALL
    requires MacroCallRange(e.tree) == Ok(Some(span)) && bound.ContainsRange(span)
    ensures AddsWithin(s, Step(sema, viewport, s, Enter(e)), bound)
  {
    AppendsWithin(s, Step(sema, viewport, s, Enter(e)), [HighlightedRange(span, Plain(HighlightTag.Macro), None)], bound);
  }

  lemma InjectionInside(sema: Sema, viewport: TextRange, s: State, ev: WalkEvent, bound: TextRange)
    requires WellFormed(ev.elem.tree) && NestedRangesValid(sema) && bound.ContainsRange(ev.elem.Range()) && Injecting(sema, viewport, s, ev)
    ensures AddsWithin(s, Step(sema, viewport, s, ev), bound)
  {
    var injected := HighlightInjection(sema, ev.elem.tree, ToHighlight(sema, s, ev.elem).value).value.value;
    InjectedInside(sema, ev.elem.tree, ToHighlight(sema, s, ev.elem).value, bound);
    StepEntersRawString(sema, viewport, s, ev);
    AppendsWithin(s, Step(sema, viewport, s, ev), injected, bound);
  }

  /** The highlights injected for a well-formed literal inside `bound` lie
      inside `bound`. */
  lemma InjectedInside(sema: Sema, literal: RawStringToken, expanded: Element, bound: TextRange)
    requires WellFormed(literal) && NestedRangesValid(sema) && bound.ContainsRange(literal.range)
    requires HighlightInjection(sema, literal, expanded).Ok? && HighlightInjection(sema, literal, expanded).value.Some?
    ensures var injected := HighlightInjection(sema, literal, expanded).value.value;
      forall i :: 0 <= i < |injected| ==> bound.ContainsRange(injected[i].range)
  {
    var nested := sema.nestedHighlight(RawStringValue(literal).value);
    var out := Inject(literal, nested).value;
    assert HighlightInjection(sema, literal, expanded).value.value == out;
    InjectionStaysInLiteral(literal, nested);
    forall i | 0 <= i < |out| ensures bound.ContainsRange(out[i].range) {
      assert literal.range.ContainsRange(out[i].range);
    }
  }

  /** Walking a well-formed element inside `bound` emits only ranges inside
      `bound`. */
  lemma {:induction false} WalkStaysInside(sema: Sema, viewport: TextRange, s: State, e: Element, bound: TextRange)
    requires WellFormed(e.tree) && NestedRangesValid(sema) && bound.ContainsRange(e.Range())
    ensures AddsWithin(s, Walk(sema, viewport, s, Preorder(e)), bound)
    decreases e.tree, 1
  {
    PreorderSplit(sema, viewport, s, e);
    StepStaysInside(sema, viewport, s, Enter(e), bound);
    match Step(sema, viewport, s, Enter(e))
    case Err(_) =>
    case Ok(t) =>
      ChildrenStayInside(sema, viewport, t, e.tree, e.ancestors, 0, bound);
      match Walk(sema, viewport, t, ChildrenPreorder(e.tree, e.ancestors, 0))
      case Err(_) =>
      case Ok(u) =>
        AddsWithinChain(s, t, Ok(u), bound);
        StepStaysInside(sema, viewport, u, Leave(e), bound);
        AddsWithinChain(s, u, Step(sema, viewport, u, Leave(e)), bound);
  }

  lemma {:induction false} ChildrenStayInside(sema: Sema, viewport: TextRange, s: State, t: Tree, anc: seq<Tree>, i: nat, bound: TextRange)
    requires WellFormed(t) && NestedRangesValid(sema) && bound.ContainsRange(t.range)
    ensures AddsWithin(s, Walk(sema, viewport, s, ChildrenPreorder(t, anc, i)), bound)
    decreases t, 0, |t.children| - i
  {
    if i < |t.children| {
      var c := Element(t.children[i], [t] + anc);
      ChildrenSplit(sema, viewport, s, t, anc, i);
      WalkStaysInside(sema, viewport, s, c, bound);
      match Walk(sema, viewport, s, Preorder(c))
      case Err(_) =>
      case Ok(u) =>
        ChildrenStayInside(sema, viewport, u, t, anc, i + 1, bound);
        AddsWithinChain(s, u, Walk(sema, viewport, u, ChildrenPreorder(t, anc, i + 1)), bound);
    } else {
      assert ChildrenPreorder(t, anc, i) == [];
    }
  }
}
