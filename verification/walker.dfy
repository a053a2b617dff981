/** The loop of `highlight`: a fold over the preorder enter/leave events of
    the tree to highlight, threading the shadow counts, the macro call being
    walked and the ranges emitted so far. */
module Walker {
  import opened Wrappers
  import opened TextSize
  import opened Syntax
  import opened Tokens
  import opened HighlightTags
  import opened Semantics
  import opened Classify
  import opened MacroRange
  import opened Injection

  /** The walk's state: `bindings_shadow_count`, `current_macro_call` and
      the result vector. */
  datatype State = State(shadow: ShadowMap, currentMacro: Option<Element>, out: seq<HighlightedRange>)

  const START: State := State(map[], None, [])

  /** The element highlighted in place of a macro-call argument token: the
      token the macro expansion uses for it, or that token's `Name` or
      `NameRef` parent when it is an identifier there. */
  function Expand(sema: Sema, token: Element): (r: Element)
    ensures var d := sema.descend(token);
      if d.Kind() == IDENT && (d.ParentKind() == Some(NAME) || d.ParentKind() == Some(NAME_REF))
      then r == d.Parent().value && r.Kind() != IDENT
      else r == d
  {
    var d := sema.descend(token);
    if d.Kind() == IDENT && (d.ParentKind() == Some(NAME) || d.ParentKind() == Some(NAME_REF))
    then d.Parent().value
    else d
  }

  /** Inside a macro call, only tokens directly inside a token tree are
      highlighted. */
  predicate InMacroArgument(e: Element) {
    e.IsToken() && e.ParentKind() == Some(TOKEN_TREE)
  }

  /** The element `highlight_element` sees for an entered element `e`, or
      `None` when a macro call is being walked and `e` is not an argument
      token. */
  function ToHighlight(sema: Sema, s: State, e: Element): (r: Option<Element>)
    ensures s.currentMacro.None? ==> r == Some(e)
    ensures s.currentMacro.Some? ==> (r.Some? <==> InMacroArgument(e))
    ensures s.currentMacro.Some? && r.Some? ==> r.value == Expand(sema, e)
  {
    if s.currentMacro.None? then Some(e)
    else if InMacroArgument(e) then Some(Expand(sema, e))
    else None
  }

  /** `highlight_element` on `target`, its highlight (if any) placed at the
      range of the original element `e`. */
  function Highlighted(sema: Sema, s: State, e: Element, target: Element): (r: State)
    ensures r.currentMacro == s.currentMacro
    ensures r.shadow == HighlightElement(sema, s.shadow, target).shadow
    ensures var c := HighlightElement(sema, s.shadow, target);
      r.out == s.out + if c.styled.None? then [] else
        [HighlightedRange(e.Range(), c.styled.value.highlight, c.styled.value.bindingHash)]
  {
    var c := HighlightElement(sema, s.shadow, target);
    match c.styled
    case None => s.(shadow := c.shadow)
    case Some(st) => State(c.shadow, s.currentMacro, s.out + [HighlightedRange(e.Range(), st.highlight, st.bindingHash)])
  }

  /** Event `ev` enters a raw string in the viewport whose expansion is a
      token and whose highlights are injected. */
  predicate Injecting(sema: Sema, viewport: TextRange, s: State, ev: WalkEvent) {
    && ev.Enter? && Intersects(viewport, ev.elem.Range()) && ev.elem.Kind() == RAW_STRING
    && ToHighlight(sema, s, ev.elem).Some? && ToHighlight(sema, s, ev.elem).value.IsToken()
    && HighlightInjection(sema, ev.elem.tree, ToHighlight(sema, s, ev.elem).value).Ok?
    && HighlightInjection(sema, ev.elem.tree, ToHighlight(sema, s, ev.elem).value).value.Some?
  }

  /** One iteration of the loop of `highlight`: what one enter or leave
      event does to the state, or the panic it raises. */
  function Step(sema: Sema, viewport: TextRange, s: State, ev: WalkEvent): (r: Result<State, Fault>)
    // Outside the viewport nothing happens.
    ensures !Intersects(viewport, ev.elem.Range()) ==> r == Ok(s)
    // Output only grows.
    ensures r.Ok? ==> s.out <= r.value.out
    // Entering a macro call makes it current and emits its span first.
    ensures Intersects(viewport, ev.elem.Range()) && ev.Enter? && ev.elem.Kind() == MACRO_CALL ==>
      match MacroCallRange(ev.elem.tree)
      case Err(f) => r == Err(f)
      case Ok(None) => r == Ok(s.(currentMacro := Some(ev.elem)))
      case Ok(Some(span)) =>
        r == Ok(State(s.shadow, Some(ev.elem), s.out + [HighlightedRange(span, Plain(HighlightTag.Macro), None)]))
    // Leaving a macro call asserts it is the current one and clears it.
    ensures Intersects(viewport, ev.elem.Range()) && ev.Leave? && ev.elem.Kind() == MACRO_CALL ==>
      if s.currentMacro == Some(ev.elem) then r == Ok(s.(currentMacro := None))
      else r == Err(MacroCallMismatch)
    // Leaving anything else does nothing.
    ensures ev.Leave? && ev.elem.Kind() != MACRO_CALL ==> r == Ok(s)
    // Inside a macro call, what is not an argument token is skipped.
    ensures ev.Enter? && ev.elem.Kind() != MACRO_CALL && s.currentMacro.Some? && !InMacroArgument(ev.elem) ==>
      r == Ok(s)
    // The current macro call changes only at macro-call events.
    ensures r.Ok? && ev.elem.Kind() != MACRO_CALL ==> r.value.currentMacro == s.currentMacro
    // Apart from an injection, at most one range is emitted, at the
    // original element's range.
    ensures r.Ok? && ev.elem.Kind() != MACRO_CALL && !Injecting(sema, viewport, s, ev) ==>
      && |r.value.out| <= |s.out| + 1
      && (|r.value.out| == |s.out| + 1 ==> r.value.out[|s.out|].range == ev.elem.Range())
    // Only a macro call can fail the assertion on leaving one.
    ensures r == Err(MacroCallMismatch) ==> ev.Leave? && ev.elem.Kind() == MACRO_CALL
  {
    var e := ev.elem;
    if !Intersects(viewport, e.Range()) then Ok(s)
    else if e.Kind() == MACRO_CALL then
      if ev.Enter? then
        match MacroCallRange(e.tree)
        case Err(f) => Err(f)
        case Ok(None) => Ok(s.(currentMacro := Some(e)))
        case Ok(Some(span)) =>
          Ok(State(s.shadow, Some(e), s.out + [HighlightedRange(span, Plain(HighlightTag.Macro), None)]))
      else if s.currentMacro == Some(e) then Ok(s.(currentMacro := None))
      else Err(MacroCallMismatch)
    else if ev.Leave? then Ok(s)
    else
      match ToHighlight(sema, s, e)
      case None => Ok(s)
      case Some(target) =>
        if e.Kind() == RAW_STRING then
          if !target.IsToken() then Err(ExpandedIsNotToken)
          else
            match HighlightInjection(sema, e.tree, target)
            case Err(f) => Err(f)
            case Ok(Some(injected)) => Ok(s.(out := s.out + injected))
            case Ok(None) => Ok(Highlighted(sema, s, e, target))
        else Ok(Highlighted(sema, s, e, target))
  }

  /** Entering any other element in the viewport runs `highlight_element`
      on the element `ToHighlight` picks, at the entered element's range. */
  lemma StepEntersElement(sema: Sema, viewport: TextRange, s: State, ev: WalkEvent)
    requires Intersects(viewport, ev.elem.Range()) && ev.Enter? && ev.elem.Kind() != MACRO_CALL
    requires ev.elem.Kind() != RAW_STRING && ToHighlight(sema, s, ev.elem).Some?
    ensures Step(sema, viewport, s, ev) == Ok(Highlighted(sema, s, ev.elem, ToHighlight(sema, s, ev.elem).value))
  {
  }

  /** A raw string does the same unless it is a fixture argument, whose
      injected highlights are emitted instead; its expansion must be a token. */
  lemma StepEntersRawString(sema: Sema, viewport: TextRange, s: State, ev: WalkEvent)
    requires Intersects(viewport, ev.elem.Range()) && ev.Enter? && ev.elem.Kind() == RAW_STRING
    requires ToHighlight(sema, s, ev.elem).Some?
    ensures var target := ToHighlight(sema, s, ev.elem).value;
      if !target.IsToken() then Step(sema, viewport, s, ev) == Err(ExpandedIsNotToken)
      else
        match HighlightInjection(sema, ev.elem.tree, target)
        case Err(f) => Step(sema, viewport, s, ev) == Err(f)
        case Ok(Some(injected)) => Step(sema, viewport, s, ev) == Ok(s.(out := s.out + injected))
        case Ok(None) => Step(sema, viewport, s, ev) == Ok(Highlighted(sema, s, ev.elem, target))
  {
  }

  /** The loop: the events in order, stopping at the first panic. */
  function Walk(sema: Sema, viewport: TextRange, s: State, evs: seq<WalkEvent>): (r: Result<State, Fault>)
    decreases |evs|
  {
    if |evs| == 0 then Ok(s)
    else
      match Walk(sema, viewport, s, evs[..|evs| - 1])
      case Err(f) => Err(f)
      case Ok(t) => Step(sema, viewport, t, evs[|evs| - 1])
  }

  // ---------------------------------------------------------------------
  // Properties of the fold

  /** Walking two event sequences one after the other is walking their
      concatenation; a panic in the first ends the walk. */
  lemma {:induction false} WalkAppend(sema: Sema, viewport: TextRange, s: State, a: seq<WalkEvent>, b: seq<WalkEvent>)
    ensures Walk(sema, viewport, s, a + b) ==
      match Walk(sema, viewport, s, a)
      case Err(f) => Err(f)
      case Ok(t) => Walk(sema, viewport, t, b)
    decreases |b|
  {
    if |b| == 0 {
      assert a + b == a;
    } else {
      var b' := b[..|b| - 1];
      assert (a + b)[..|a + b| - 1] == a + b';
      assert (a + b)[|a + b| - 1] == b[|b| - 1];
      WalkAppend(sema, viewport, s, a, b');
    }
  }

  /** The result vector only grows along a walk. */
  lemma {:induction false} WalkOutputGrows(sema: Sema, viewport: TextRange, s: State, evs: seq<WalkEvent>)
    requires Walk(sema, viewport, s, evs).Ok?
    ensures s.out <= Walk(sema, viewport, s, evs).value.out
    decreases |evs|
  {
    if |evs| > 0 {
      WalkOutputGrows(sema, viewport, s, evs[..|evs| - 1]);
    }
  }

  /** Events whose elements all lie outside the viewport change nothing. */
  lemma {:induction false} WalkOutsideViewport(sema: Sema, viewport: TextRange, s: State, evs: seq<WalkEvent>)
    requires forall i :: 0 <= i < |evs| ==> !Intersects(viewport, evs[i].elem.Range())
    ensures Walk(sema, viewport, s, evs) == Ok(s)
    decreases |evs|
  {
    if |evs| > 0 {
      WalkOutsideViewport(sema, viewport, s, evs[..|evs| - 1]);
    }
  }

  /** Entering a macro call in the viewport emits its span before anything
      the walk emits for the events that follow. */
  lemma {:induction false} MacroSpanComesFirst(sema: Sema, viewport: TextRange, s: State, mc: Element, rest: seq<WalkEvent>)
    requires mc.Kind() == MACRO_CALL && Intersects(viewport, mc.Range())
    requires MacroCallRange(mc.tree).Ok? && MacroCallRange(mc.tree).value.Some?
    requires Walk(sema, viewport, s, [Enter(mc)] + rest).Ok?
    ensures var out := Walk(sema, viewport, s, [Enter(mc)] + rest).value.out;
      && |out| > |s.out|
      && out[|s.out|] == HighlightedRange(MacroCallRange(mc.tree).value.value, Plain(HighlightTag.Macro), None)
  {
    WalkAppend(sema, viewport, s, [Enter(mc)], rest);
    assert [Enter(mc)][..0] == [];
    var t := Step(sema, viewport, s, Enter(mc)).value;
    assert Walk(sema, viewport, s, [Enter(mc)]) == Ok(t);
    WalkOutputGrows(sema, viewport, t, rest);
  }

  // ---------------------------------------------------------------------
  // Balance of macro-call events

  /** A tree with no macro call anywhere in it. */
  predicate MacroFree(t: Tree)
    decreases t
  {
    t.kind != MACRO_CALL && forall i :: 0 <= i < |t.children| ==> MacroFree(t.children[i])
  }

  /** No macro call lies inside another: what the parser produces, since a
      macro call's arguments are token trees. */
  predicate MacrosDoNotNest(t: Tree)
    decreases t
  {
    if t.kind == MACRO_CALL then forall i :: 0 <= i < |t.children| ==> MacroFree(t.children[i])
    else forall i :: 0 <= i < |t.children| ==> MacrosDoNotNest(t.children[i])
  }

  /** A walk that leaves the current macro call as `m` (if it finishes), and
      that never fails the assertion on leaving a macro call. */
  predicate KeepsMacro(r: Result<State, Fault>, m: Option<Element>) {
    match r
    case Ok(t) => t.currentMacro == m
    case Err(f) => f != MacroCallMismatch
  }

  lemma WalkOne(sema: Sema, viewport: TextRange, s: State, ev: WalkEvent)
    ensures Walk(sema, viewport, s, [ev]) == Step(sema, viewport, s, ev)
  {
    assert [ev][..0] == [];
  }

  /** Walking an element: entering it, walking its children, leaving it. */
  lemma PreorderSplit(sema: Sema, viewport: TextRange, s: State, e: Element)
    ensures Walk(sema, viewport, s, Preorder(e)) ==
      match Step(sema, viewport, s, Enter(e))
      case Err(f) => Err(f)
      case Ok(t) =>
        match Walk(sema, viewport, t, ChildrenPreorder(e.tree, e.ancestors, 0))
        case Err(f) => Err(f)
        case Ok(u) => Step(sema, viewport, u, Leave(e))
  {
    var kids := ChildrenPreorder(e.tree, e.ancestors, 0);
    assert Preorder(e) == ([Enter(e)] + kids) + [Leave(e)];
    WalkAppend(sema, viewport, s, [Enter(e)] + kids, [Leave(e)]);
    WalkAppend(sema, viewport, s, [Enter(e)], kids);
    WalkOne(sema, viewport, s, Enter(e));
    match Step(sema, viewport, s, Enter(e))
    case Err(_) =>
    case Ok(t) =>
      match Walk(sema, viewport, t, kids)
      case Err(_) =>
      case Ok(u) => WalkOne(sema, viewport, u, Leave(e));
  }

  /** The walk of the children from the `i`-th on: the `i`-th child's walk,
      then the rest. */
  lemma ChildrenSplit(sema: Sema, viewport: TextRange, s: State, t: Tree, anc: seq<Tree>, i: nat)
    requires i < |t.children|
    ensures Walk(sema, viewport, s, ChildrenPreorder(t, anc, i)) ==
      match Walk(sema, viewport, s, Preorder(Element(t.children[i], [t] + anc)))
      case Err(f) => Err(f)
      case Ok(u) => Walk(sema, viewport, u, ChildrenPreorder(t, anc, i + 1))
  {
    WalkAppend(sema, viewport, s, Preorder(Element(t.children[i], [t] + anc)), ChildrenPreorder(t, anc, i + 1));
  }

  /** Walking a macro-free subtree leaves the current macro call as it was
      and cannot fail the leave assertion. */
  lemma {:induction false} MacroFreeKeepsMacro(sema: Sema, viewport: TextRange, s: State, e: Element)
    requires MacroFree(e.tree)
    ensures KeepsMacro(Walk(sema, viewport, s, Preorder(e)), s.currentMacro)
    decreases e.tree, 1
  {
    PreorderSplit(sema, viewport, s, e);
    match Step(sema, viewport, s, Enter(e))
    case Err(_) =>
    case Ok(t) =>
      ChildrenMacroFreeKeepMacro(sema, viewport, t, e.tree, e.ancestors, 0);
  }

  lemma {:induction false} ChildrenMacroFreeKeepMacro(sema: Sema, viewport: TextRange, s: State, t: Tree, anc: seq<Tree>, i: nat)
    requires forall j :: 0 <= j < |t.children| ==> MacroFree(t.children[j])
    ensures KeepsMacro(Walk(sema, viewport, s, ChildrenPreorder(t, anc, i)), s.currentMacro)
    decreases t, 0, |t.children| - i
  {
    if i < |t.children| {
      var c := Element(t.children[i], [t] + anc);
      ChildrenSplit(sema, viewport, s, t, anc, i);
      MacroFreeKeepsMacro(sema, viewport, s, c);
      match Walk(sema, viewport, s, Preorder(c))
      case Err(_) =>
      case Ok(u) => ChildrenMacroFreeKeepMacro(sema, viewport, u, t, anc, i + 1);
    } else {
      assert ChildrenPreorder(t, anc, i) == [];
    }
  }

  /** Outside any macro call, walking a subtree whose macro calls do not
      nest ends outside any macro call, and every leave of a macro call
      finds it current: the assertion never fails. */
  lemma {:induction false} MacroCallsBalance(sema: Sema, viewport: TextRange, s: State, e: Element)
    requires MacrosDoNotNest(e.tree) && s.currentMacro.None?
    ensures KeepsMacro(Walk(sema, viewport, s, Preorder(e)), None)
    decreases e.tree, 1
  {
    PreorderSplit(sema, viewport, s, e);
    match Step(sema, viewport, s, Enter(e))
    case Err(_) =>
    case Ok(t) =>
      if e.Kind() == MACRO_CALL {
        ChildrenMacroFreeKeepMacro(sema, viewport, t, e.tree, e.ancestors, 0);
      } else {
        ChildrenBalance(sema, viewport, t, e.tree, e.ancestors, 0);
      }
  }

  lemma {:induction false} ChildrenBalance(sema: Sema, viewport: TextRange, s: State, t: Tree, anc: seq<Tree>, i: nat)
    requires forall j :: 0 <= j < |t.children| ==> MacrosDoNotNest(t.children[j])
    requires s.currentMacro.None?
    ensures KeepsMacro(Walk(sema, viewport, s, ChildrenPreorder(t, anc, i)), None)
    decreases t, 0, |t.children| - i
  {
    if i < |t.children| {
      var c := Element(t.children[i], [t] + anc);
      ChildrenSplit(sema, viewport, s, t, anc, i);
      MacroCallsBalance(sema, viewport, s, c);
      match Walk(sema, viewport, s, Preorder(c))
      case Err(_) =>
      case Ok(u) => ChildrenBalance(sema, viewport, u, t, anc, i + 1);
    } else {
      assert ChildrenPreorder(t, anc, i) == [];
    }
  }

  // ---------------------------------------------------------------------
  // The shadow counts along a walk

  /** The element `highlight_element` runs on at event `ev`, if any: the one
      `ToHighlight` picks for an entered element in the viewport other than
      a macro call, unless it is a raw string whose injection takes over
      (or whose expansion is not a token). */
  function StepTarget(sema: Sema, viewport: TextRange, s: State, ev: WalkEvent): (r: Option<Element>)
    ensures r.Some? ==> ev.Enter? && Intersects(viewport, ev.elem.Range()) && ev.elem.Kind() != MACRO_CALL
    ensures r.Some? ==> ToHighlight(sema, s, ev.elem) == r
  {
    var e := ev.elem;
    if !Intersects(viewport, e.Range()) || ev.Leave? || e.Kind() == MACRO_CALL then None
    else
      match ToHighlight(sema, s, e)
      case None => None
      case Some(target) =>
        if e.Kind() == RAW_STRING && (!target.IsToken() || HighlightInjection(sema, e.tree, target) != Ok(None)) then None
        else Some(target)
  }

  /** The elements `highlight_element` runs on along a walk, in order, up to
      the first panic. */
  function WalkTargets(sema: Sema, viewport: TextRange, s: State, evs: seq<WalkEvent>): seq<Element>
    decreases |evs|
  {
    if |evs| == 0 then []
    else
      var before := WalkTargets(sema, viewport, s, evs[..|evs| - 1]);
      match Walk(sema, viewport, s, evs[..|evs| - 1])
      case Err(_) => before
      case Ok(t) =>
        match StepTarget(sema, viewport, t, evs[|evs| - 1])
        case None => before
        case Some(x) => before + [x]
  }

  /** One event changes the shadow counts exactly by the shadow update of
      `highlight_element` on its target, and not at all without one. */
  lemma StepShadow(sema: Sema, viewport: TextRange, s: State, ev: WalkEvent)
    ensures Step(sema, viewport, s, ev).Ok? ==>
      Step(sema, viewport, s, ev).value.shadow ==
        match StepTarget(sema, viewport, s, ev)
        case None => s.shadow
        case Some(x) => ShadowStep(sema, s.shadow, x)
  {
    match StepTarget(sema, viewport, s, ev)
    case None =>
    case Some(x) => ShadowStepIsHighlight(sema, s.shadow, x);
  }

  /** The shadow counts a walk ends with are those of `ShadowAfter` over the
      elements it runs `highlight_element` on. */
  lemma {:induction false} WalkShadow(sema: Sema, viewport: TextRange, s: State, evs: seq<WalkEvent>)
    ensures Walk(sema, viewport, s, evs).Ok? ==>
      Walk(sema, viewport, s, evs).value.shadow == ShadowAfter(sema, s.shadow, WalkTargets(sema, viewport, s, evs))
    decreases |evs|
  {
    if |evs| > 0 {
      var pre := evs[..|evs| - 1];
      WalkShadow(sema, viewport, s, pre);
      match Walk(sema, viewport, s, pre)
      case Err(_) =>
      case Ok(t) =>
        StepShadow(sema, viewport, t, evs[|evs| - 1]);
        var before := WalkTargets(sema, viewport, s, pre);
        match StepTarget(sema, viewport, t, evs[|evs| - 1])
        case None =>
        case Some(x) =>
          assert (before + [x])[..|before|] == before;
    }
  }
}
