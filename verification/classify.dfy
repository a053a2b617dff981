/** `highlight_element` and the two name classifiers it relies on: how one
    syntax element is highlighted, and how the per-function shadow counts
    give each local binding its hash. */
module Classify {
  import opened Wrappers
  import opened TextSize
  import opened Seqs
  import opened Syntax
  import opened HighlightTags
  import opened Semantics

  /** `bindings_shadow_count`: definitions of each local name seen so far in
      the current function. */
  type ShadowMap = map<Name, nat>

  /** The count of `n`, 0 when it has none (`entry(n).or_default()`). */
  function ShadowCount(m: ShadowMap, n: Name): nat {
    if n in m then m[n] else 0
  }

  // ---------------------------------------------------------------------
  // highlight_name and highlight_name_by_syntax

  /** `highlight_name`: the tag for what a name resolves to. Only locals are
      tagged `Local`, and only they carry a modifier: `Mutable`, for a `mut`
      binding or one of `&mut` type. */
  function HighlightName(def: Definition): (h: Highlight)
    ensures h.tag == HighlightTag.Local <==> def.Local?
    ensures h.modifiers <= {HighlightModifier.Mutable}
    ensures HighlightModifier.Mutable in h.modifiers <==>
              def.Local? && (def.local.isMut || def.local.tyIsMutableReference)
  {
    match def
    case Macro => Plain(HighlightTag.Macro)
    case StructField => Plain(HighlightTag.Field)
    case ModuleDef(m) => (
      match m
      case Module => Plain(HighlightTag.Module)
      case Function => Plain(HighlightTag.Function)
      case Adt(Struct) => Plain(HighlightTag.Struct)
      case Adt(Enum) => Plain(HighlightTag.Enum)
      case Adt(Union) => Plain(HighlightTag.Union)
      case EnumVariant => Plain(HighlightTag.EnumVariant)
      case Const => Plain(HighlightTag.Constant)
      case Static => Plain(HighlightTag.Static)
      case Trait => Plain(HighlightTag.Trait)
      case TypeAlias => Plain(HighlightTag.TypeAlias)
      case BuiltinType => Plain(HighlightTag.BuiltinType))
    case SelfType => Plain(HighlightTag.SelfType)
    case TypeParam => Plain(HighlightTag.TypeParam)
    case Local(local) =>
      var h := Plain(HighlightTag.Local);
      if local.isMut || local.tyIsMutableReference then With(h, HighlightModifier.Mutable) else h
  }

  /** The item kinds `highlight_name_by_syntax` recognises by the parent of
      an unresolved name, and the definition each declares. */
  function DeclaredBy(parent: SyntaxKind): Option<Definition> {
    match parent
    case STRUCT_DEF => Some(ModuleDef(Adt(Adt.Struct)))
    case ENUM_DEF => Some(ModuleDef(Adt(Adt.Enum)))
    case UNION_DEF => Some(ModuleDef(Adt(Adt.Union)))
    case TRAIT_DEF => Some(ModuleDef(ModuleDef.Trait))
    case TYPE_ALIAS_DEF => Some(ModuleDef(ModuleDef.TypeAlias))
    case TYPE_PARAM => Some(Definition.TypeParam)
    case RECORD_FIELD_DEF => Some(StructField)
    case _ => None
  }

  /** `highlight_name_by_syntax`: a guess from the parent's kind, with no
      modifiers; `Function` when there is no parent or it is not one of the
      recognised items. */
  function HighlightNameBySyntax(name: Element): (h: Highlight)
    ensures h.modifiers == {}
    ensures name.ParentKind().None? ==> h.tag == HighlightTag.Function
    ensures name.ParentKind().Some? && DeclaredBy(name.ParentKind().value).None? ==> h.tag == HighlightTag.Function
  {
    match name.ParentKind()
    case None => Plain(HighlightTag.Function)
    case Some(k) =>
      match k
      case STRUCT_DEF => Plain(HighlightTag.Struct)
      case ENUM_DEF => Plain(HighlightTag.Enum)
      case UNION_DEF => Plain(HighlightTag.Union)
      case TRAIT_DEF => Plain(HighlightTag.Trait)
      case TYPE_ALIAS_DEF => Plain(HighlightTag.TypeAlias)
      case TYPE_PARAM => Plain(HighlightTag.TypeParam)
      case RECORD_FIELD_DEF => Plain(HighlightTag.Field)
      case _ => Plain(HighlightTag.Function)
  }

  /** The syntactic guess for an unresolved name inside a recognised item is
      the highlight the item's definition gets once resolved. */
  lemma FallbackAgreesWithResolution(name: Element)
    requires name.ParentKind().Some? && DeclaredBy(name.ParentKind().value).Some?
    ensures HighlightNameBySyntax(name) == HighlightName(DeclaredBy(name.ParentKind().value).value)
  {
    match name.ParentKind().value
    case STRUCT_DEF =>
    case ENUM_DEF =>
    case UNION_DEF =>
    case TRAIT_DEF =>
    case TYPE_ALIAS_DEF =>
    case TYPE_PARAM =>
    case RECORD_FIELD_DEF =>
  }

  // ---------------------------------------------------------------------
  // highlight_element

  predicate IsStringKind(k: SyntaxKind) {
    k.STRING? || k.RAW_STRING? || k.RAW_BYTE_STRING? || k.BYTE_STRING?
  }

  /** The fixed tags of the simple token kinds (and of `ATTR`). */
  function TokenTag(k: SyntaxKind): Option<HighlightTag> {
    if k == COMMENT then Some(HighlightTag.Comment)
    else if IsStringKind(k) then Some(HighlightTag.StringLiteral)
    else if k == ATTR then Some(HighlightTag.Attribute)
    else if k == INT_NUMBER || k == FLOAT_NUMBER then Some(HighlightTag.NumericLiteral)
    else if k == BYTE then Some(HighlightTag.ByteLiteral)
    else if k == CHAR then Some(HighlightTag.CharLiteral)
    else None
  }

  predicate IsControlFlowKeyword(k: SyntaxKind) {
    || k == BREAK_KW || k == CONTINUE_KW || k == ELSE_KW || k == FOR_KW || k == IF_KW
    || k == LOOP_KW || k == MATCH_KW || k == RETURN_KW || k == WHILE_KW
  }

  /** Kinds `highlight_element` has an arm for (other than `FN_DEF`). */
  predicate Highlightable(k: SyntaxKind) {
    k == NAME || k == NAME_REF || TokenTag(k).Some? || k == LIFETIME || k.IsKeyword()
  }

  /** The name of the local binding a `NAME` element defines, if any. */
  function DefinedLocal(sema: Sema, e: Element): Option<Name> {
    if e.Kind() != NAME then None
    else match sema.classifyName(e)
      case Some(Defines(Local(l))) => l.name
      case _ => None
  }

  /** The name of the local binding a `NAME_REF` element (outside any
      attribute) refers to, if any. */
  function ReferencedLocal(sema: Sema, e: Element): Option<Name> {
    if e.Kind() != NAME_REF || e.HasAncestorOfKind(ATTR) then None
    else match sema.classifyNameRef(e)
      case Some(RefersTo(Local(l))) => l.name
      case _ => None
  }

  /** The binding a name resolves to is mutable. */
  predicate ResolvesToMutableLocal(sema: Sema, e: Element) {
    if e.Kind() == NAME then
      sema.classifyName(e).Some? && sema.classifyName(e).value.def.Local?
      && (sema.classifyName(e).value.def.local.isMut || sema.classifyName(e).value.def.local.tyIsMutableReference)
    else if e.Kind() == NAME_REF then
      sema.classifyNameRef(e).Some? && sema.classifyNameRef(e).value.RefersTo? && sema.classifyNameRef(e).value.def.Local?
      && (sema.classifyNameRef(e).value.def.local.isMut || sema.classifyNameRef(e).value.def.local.tyIsMutableReference)
    else false
  }

  datatype Styled = Styled(highlight: Highlight, bindingHash: Option<BindingHash>)

  /** The answer of `highlight_element` and the shadow map it leaves. */
  datatype Classified = Classified(styled: Option<Styled>, shadow: ShadowMap)

  /** The `NAME` arm of `highlight_element`. */
  function HighlightNameElement(sema: Sema, shadow: ShadowMap, e: Element): (r: Classified)
    requires e.Kind() == NAME
    ensures r.styled.Some?
    ensures DefinedLocal(sema, e).Some? ==>
              var n := DefinedLocal(sema, e).value;
              && r.shadow == shadow[n := ShadowCount(shadow, n) + 1]
              && r.styled.value.bindingHash == Some(sema.bindingHash(n, ShadowCount(shadow, n) + 1))
    ensures DefinedLocal(sema, e).None? ==> r.shadow == shadow && r.styled.value.bindingHash.None?
    ensures HighlightModifier.Definition in r.styled.value.highlight.modifiers <==>
              !(sema.classifyName(e).Some? && sema.classifyName(e).value.ConstReference?)
    ensures HighlightModifier.Mutable in r.styled.value.highlight.modifiers <==> ResolvesToMutableLocal(sema, e)
    ensures r.styled.value.highlight.modifiers <= {HighlightModifier.Definition, HighlightModifier.Mutable}
    // A resolved name takes its definition's highlight, marked a definition
    // unless it only refers to a constant; an unresolved one takes the
    // syntactic guess, marked a definition.
    ensures sema.classifyName(e).Some? ==>
              var def := sema.classifyName(e).value.def;
              && r.styled.value.highlight.tag == HighlightName(def).tag
              && r.styled.value.highlight.modifiers ==
                   HighlightName(def).modifiers + (if sema.classifyName(e).value.Defines? then {HighlightModifier.Definition} else {})
    ensures sema.classifyName(e).None? ==>
              && r.styled.value.highlight.tag == HighlightNameBySyntax(e).tag
              && r.styled.value.highlight.modifiers == {HighlightModifier.Definition}
  {
    var counted: (ShadowMap, Option<BindingHash>) :=
      match DefinedLocal(sema, e)
      case Some(n) =>
        var count := ShadowCount(shadow, n) + 1;
        (shadow[n := count], Some(sema.bindingHash(n, count)))
      case None => (shadow, None);
    var h :=
      match sema.classifyName(e)
      case Some(Defines(def)) => With(HighlightName(def), HighlightModifier.Definition)
      case Some(ConstReference(def)) => HighlightName(def)
      case None => With(HighlightNameBySyntax(e), HighlightModifier.Definition);
    Classified(Some(Styled(h, counted.1)), counted.0)
  }

  /** The `NAME_REF` arms of `highlight_element`. */
  function HighlightNameRefElement(sema: Sema, shadow: ShadowMap, e: Element): (r: Classified)
    requires e.Kind() == NAME_REF
    ensures r.styled.None? <==> e.HasAncestorOfKind(ATTR) || sema.classifyNameRef(e).None?
    ensures ReferencedLocal(sema, e).Some? ==>
              var n := ReferencedLocal(sema, e).value;
              && r.shadow == shadow[n := ShadowCount(shadow, n)]
              && r.styled.Some?
              && r.styled.value.bindingHash == Some(sema.bindingHash(n, ShadowCount(shadow, n)))
    ensures ReferencedLocal(sema, e).None? ==> r.shadow == shadow && (r.styled.Some? ==> r.styled.value.bindingHash.None?)
    ensures r.styled.Some? ==> r.styled.value.highlight.modifiers <= {HighlightModifier.Mutable}
    ensures r.styled.Some? ==> (HighlightModifier.Mutable in r.styled.value.highlight.modifiers <==> ResolvesToMutableLocal(sema, e))
    // A field shorthand is a plain field; any other reference takes the
    // highlight of what it refers to.
    ensures r.styled.Some? && sema.classifyNameRef(e).value.FieldShorthand? ==>
              r.styled.value == Styled(Plain(HighlightTag.Field), None)
    ensures r.styled.Some? && sema.classifyNameRef(e).value.RefersTo? ==>
              r.styled.value.highlight == HighlightName(sema.classifyNameRef(e).value.def)
  {
    if e.HasAncestorOfKind(ATTR) then Classified(None, shadow)
    else
      match sema.classifyNameRef(e)
      case None => Classified(None, shadow)
      case Some(FieldShorthand) => Classified(Some(Styled(Plain(HighlightTag.Field), None)), shadow)
      case Some(RefersTo(def)) =>
        if def.Local? && def.local.name.Some? then
          var n := def.local.name.value;
          var count := ShadowCount(shadow, n);
          Classified(Some(Styled(HighlightName(def), Some(sema.bindingHash(n, count)))), shadow[n := count])
        else
          Classified(Some(Styled(HighlightName(def), None)), shadow)
  }

  /** The remaining arms of `highlight_element`: fixed token tags, lifetimes
      and keywords, nothing for any other kind. */
  function HighlightOther(e: Element): (r: Option<Highlight>)
    ensures r.None? <==> TokenTag(e.Kind()).None? && e.Kind() != LIFETIME && !e.Kind().IsKeyword()
    ensures TokenTag(e.Kind()).Some? ==> r == Some(Plain(TokenTag(e.Kind()).value))
    ensures e.Kind() == LIFETIME ==> r.Some? && r.value.tag == HighlightTag.Lifetime
    ensures e.Kind().IsKeyword() ==> r.Some? && r.value.tag == HighlightTag.Keyword
    ensures r.Some? ==>
              (HighlightModifier.Definition in r.value.modifiers <==>
                 e.Kind() == LIFETIME && (e.ParentKind() == Some(LIFETIME_PARAM) || e.ParentKind() == Some(LABEL)))
    ensures r.Some? ==> (HighlightModifier.ControlFlow in r.value.modifiers <==> IsControlFlowKeyword(e.Kind()))
    ensures r.Some? ==> (HighlightModifier.Unsafe in r.value.modifiers <==> e.Kind() == UNSAFE_KW)
    ensures r.Some? ==> HighlightModifier.Mutable !in r.value.modifiers
  {
    var k := e.Kind();
    if TokenTag(k).Some? then Some(Plain(TokenTag(k).value))
    else if k == LIFETIME then Some(LifetimeHighlight(e.ParentKind()))
    else if k.IsKeyword() then Some(KeywordHighlight(k))
    else None
  }

  /** A lifetime: a definition when it declares a lifetime parameter or a
      label. */
  function LifetimeHighlight(parent: Option<SyntaxKind>): (h: Highlight)
    ensures h.tag == HighlightTag.Lifetime
    ensures h.modifiers <= {HighlightModifier.Definition}
    ensures HighlightModifier.Definition in h.modifiers <==> parent == Some(LIFETIME_PARAM) || parent == Some(LABEL)
  {
    var h := Plain(HighlightTag.Lifetime);
    if parent == Some(LIFETIME_PARAM) || parent == Some(LABEL) then With(h, HighlightModifier.Definition) else h
  }

  /** A keyword: control flow, `unsafe`, or neither. */
  function KeywordHighlight(k: SyntaxKind): (h: Highlight)
    ensures h.tag == HighlightTag.Keyword
    ensures h.modifiers <= {HighlightModifier.ControlFlow, HighlightModifier.Unsafe}
    ensures HighlightModifier.ControlFlow in h.modifiers <==> IsControlFlowKeyword(k)
    ensures HighlightModifier.Unsafe in h.modifiers <==> k == UNSAFE_KW
  {
    var h := Plain(HighlightTag.Keyword);
    if IsControlFlowKeyword(k) then With(h, HighlightModifier.ControlFlow)
    else if k == UNSAFE_KW then With(h, HighlightModifier.Unsafe)
    else h
  }

  /** `highlight_element`. */
  function HighlightElement(sema: Sema, shadow: ShadowMap, e: Element): (r: Classified)
    // Entering a function forgets every count and highlights nothing.
    ensures e.Kind() == FN_DEF ==> r == Classified(None, map[])
    // A local definition counts one more binding of its name and hashes
    // the new count.
    ensures DefinedLocal(sema, e).Some? ==>
              var n := DefinedLocal(sema, e).value;
              && r.shadow == shadow[n := ShadowCount(shadow, n) + 1]
              && r.styled.Some?
              && r.styled.value.bindingHash == Some(sema.bindingHash(n, ShadowCount(shadow, n) + 1))
    // A local reference hashes the current count, recording 0 for a name
    // not seen yet.
    ensures ReferencedLocal(sema, e).Some? ==>
              var n := ReferencedLocal(sema, e).value;
              && r.shadow == shadow[n := ShadowCount(shadow, n)]
              && r.styled.Some?
              && r.styled.value.bindingHash == Some(sema.bindingHash(n, ShadowCount(shadow, n)))
    // Nothing else touches the map or yields a hash.
    ensures e.Kind() != FN_DEF && DefinedLocal(sema, e).None? && ReferencedLocal(sema, e).None? ==>
              r.shadow == shadow && (r.styled.Some? ==> r.styled.value.bindingHash.None?)
    // When nothing is highlighted.
    ensures r.styled.None? <==>
              || e.Kind() == FN_DEF
              || (e.Kind() == NAME_REF && (e.HasAncestorOfKind(ATTR) || sema.classifyNameRef(e).None?))
              || !Highlightable(e.Kind())
    // Every kind but a function, a name or a name reference is highlighted
    // by its fixed tag, lifetime or keyword highlight, without a hash.
    ensures e.Kind() != FN_DEF && e.Kind() != NAME && e.Kind() != NAME_REF && HighlightOther(e).Some? ==>
              r.styled == Some(Styled(HighlightOther(e).value, None))
  {
    var k := e.Kind();
    if k == FN_DEF then Classified(None, map[])
    else if k == NAME then HighlightNameElement(sema, shadow, e)
    else if k == NAME_REF then HighlightNameRefElement(sema, shadow, e)
    else match HighlightOther(e)
      case Some(h) => Classified(Some(Styled(h, None)), shadow)
      case None => Classified(None, shadow)
  }

  /** Names and name references are highlighted by their arms, whose
      contracts give the highlight from the classification. */
  lemma HighlightElementNames(sema: Sema, shadow: ShadowMap, e: Element)
    ensures e.Kind() == NAME ==> HighlightElement(sema, shadow, e) == HighlightNameElement(sema, shadow, e)
    ensures e.Kind() == NAME_REF ==> HighlightElement(sema, shadow, e) == HighlightNameRefElement(sema, shadow, e)
  {
  }

  // ---------------------------------------------------------------------
  // Shadow counting over a sequence of elements

  /** The shadow-map update of `highlight_element` on its own: a function
      start clears the map, a local definition bumps the count of its name,
      a local reference records the count it reads. */
  function ShadowStep(sema: Sema, shadow: ShadowMap, e: Element): ShadowMap {
    if e.Kind() == FN_DEF then map[]
    else match DefinedLocal(sema, e)
      case Some(n) => shadow[n := ShadowCount(shadow, n) + 1]
      case None =>
        match ReferencedLocal(sema, e)
        case Some(n) => shadow[n := ShadowCount(shadow, n)]
        case None => shadow
  }

  /** `highlight_element` updates the map exactly as `ShadowStep` does. */
  lemma ShadowStepIsHighlight(sema: Sema, shadow: ShadowMap, e: Element)
    ensures HighlightElement(sema, shadow, e).shadow == ShadowStep(sema, shadow, e)
  {
  }

  /** The shadow map after `highlight_element` has seen `elems` in order,
      starting from `shadow` (by `ShadowStepIsHighlight`). */
  function ShadowAfter(sema: Sema, shadow: ShadowMap, elems: seq<Element>): ShadowMap
    decreases |elems|
  {
    if |elems| == 0 then shadow
    else ShadowStep(sema, ShadowAfter(sema, shadow, elems[..|elems| - 1]), elems[|elems| - 1])
  }

  function Kinds(elems: seq<Element>): seq<SyntaxKind> {
    seq(|elems|, i requires 0 <= i < |elems| => elems[i].Kind())
  }

  /** The local name each element defines, if any. */
  function Definitions(sema: Sema, elems: seq<Element>): seq<Option<Name>> {
    seq(|elems|, i requires 0 <= i < |elems| => DefinedLocal(sema, elems[i]))
  }

  /** Outside a function start, one element adds one to the count of the
      name it defines and leaves every other count as it was. */
  lemma CountStep(sema: Sema, shadow: ShadowMap, e: Element, n: Name)
    requires e.Kind() != FN_DEF
    ensures ShadowCount(ShadowStep(sema, shadow, e), n) ==
              ShadowCount(shadow, n) + (if DefinedLocal(sema, e) == Some(n) then 1 else 0)
  {
  }

  /** The count of `n` is the number of its local definitions since the
      last function start in `elems`, on top of the initial count when
      there is none. */
  predicate CountsDefinitions(sema: Sema, shadow: ShadowMap, elems: seq<Element>, n: Name) {
    if FN_DEF !in Kinds(elems) then
      ShadowCount(ShadowAfter(sema, shadow, elems), n) == ShadowCount(shadow, n) + Count(Definitions(sema, elems), Some(n))
    else
      var i := FindLast(Kinds(elems), FN_DEF).value;
      ShadowCount(ShadowAfter(sema, shadow, elems), n) == Count(Definitions(sema, elems[i + 1..]), Some(n))
  }

  lemma {:induction false} ShadowCountsDefinitions(sema: Sema, shadow: ShadowMap, elems: seq<Element>, n: Name)
    ensures CountsDefinitions(sema, shadow, elems, n)
    decreases |elems|
  {
    if |elems| > 0 {
      ShadowCountsDefinitions(sema, shadow, elems[..|elems| - 1], n);
      CountsDefinitionsStep(sema, shadow, elems, n);
    } else {
      assert Kinds(elems) == [] && Definitions(sema, elems) == [];
    }
  }

  lemma CountsDefinitionsStep(sema: Sema, shadow: ShadowMap, elems: seq<Element>, n: Name)
    requires |elems| > 0 && CountsDefinitions(sema, shadow, elems[..|elems| - 1], n)
    ensures CountsDefinitions(sema, shadow, elems, n)
  {
    if elems[|elems| - 1].Kind() == FN_DEF {
      StepAtFunctionStart(sema, shadow, elems, n);
    } else {
      StepElsewhere(sema, shadow, elems, n);
    }
  }

  lemma StepAtFunctionStart(sema: Sema, shadow: ShadowMap, elems: seq<Element>, n: Name)
    requires |elems| > 0 && elems[|elems| - 1].Kind() == FN_DEF
    ensures CountsDefinitions(sema, shadow, elems, n)
  {
    ShadowAfterStep(sema, shadow, elems, n);
    CountsAfterReset(sema, elems, n);
  }

  lemma StepElsewhere(sema: Sema, shadow: ShadowMap, elems: seq<Element>, n: Name)
    requires |elems| > 0 && CountsDefinitions(sema, shadow, elems[..|elems| - 1], n)
    requires elems[|elems| - 1].Kind() != FN_DEF
    ensures CountsDefinitions(sema, shadow, elems, n)
  {
    ShadowAfterStep(sema, shadow, elems, n);
    CountsAfterOther(sema, elems, n);
  }

  /** One more element: a function start empties the map, anything else
      adds to the count of the name it defines. */
  lemma ShadowAfterStep(sema: Sema, shadow: ShadowMap, elems: seq<Element>, n: Name)
    requires |elems| > 0
    ensures elems[|elems| - 1].Kind() == FN_DEF ==> ShadowCount(ShadowAfter(sema, shadow, elems), n) == 0
    ensures elems[|elems| - 1].Kind() != FN_DEF ==>
              ShadowCount(ShadowAfter(sema, shadow, elems), n) ==
                ShadowCount(ShadowAfter(sema, shadow, elems[..|elems| - 1]), n)
                + (if DefinedLocal(sema, elems[|elems| - 1]) == Some(n) then 1 else 0)
  {
    if elems[|elems| - 1].Kind() != FN_DEF {
      CountStep(sema, ShadowAfter(sema, shadow, elems[..|elems| - 1]), elems[|elems| - 1], n);
    }
  }

  /** Views of `elems` when its last element starts a function. */
  lemma CountsAfterReset(sema: Sema, elems: seq<Element>, n: Name)
    requires |elems| > 0 && elems[|elems| - 1].Kind() == FN_DEF
    ensures FN_DEF in Kinds(elems)
    ensures FindLast(Kinds(elems), FN_DEF) == Some(|elems| - 1)
    ensures Count(Definitions(sema, elems[|elems|..]), Some(n)) == 0
  {
    assert Kinds(elems)[|elems| - 1] == FN_DEF;
    assert elems[|elems|..] == [];
    assert Definitions(sema, []) == [];
  }

  /** Views of `elems` when its last element does not start a function: the
      last start is the prefix's, and the definitions after it gain the last
      element's. */
  lemma CountsAfterOther(sema: Sema, elems: seq<Element>, n: Name)
    requires |elems| > 0 && elems[|elems| - 1].Kind() != FN_DEF
    ensures var p := elems[..|elems| - 1];
            var d := if DefinedLocal(sema, elems[|elems| - 1]) == Some(n) then 1 else 0;
            && (FN_DEF in Kinds(elems) <==> FN_DEF in Kinds(p))
            && (FN_DEF !in Kinds(p) ==>
                  Count(Definitions(sema, elems), Some(n)) == Count(Definitions(sema, p), Some(n)) + d)
            && (FN_DEF in Kinds(p) ==>
                  var i := FindLast(Kinds(p), FN_DEF).value;
                  && FindLast(Kinds(elems), FN_DEF) == Some(i)
                  && Count(Definitions(sema, elems[i + 1..]), Some(n)) == Count(Definitions(sema, p[i + 1..]), Some(n)) + d)
  {
    var p := elems[..|elems| - 1];
    KindsSnoc(elems);
    DefinitionsSnoc(sema, elems, 0, n);
    assert elems[0..] == elems && p[0..] == p;
    if FN_DEF in Kinds(p) {
      var i := FindLast(Kinds(p), FN_DEF).value;
      DefinitionsSnoc(sema, elems, i + 1, n);
    }
  }

  lemma KindsSnoc(elems: seq<Element>)
    requires |elems| > 0
    ensures Kinds(elems) == Kinds(elems[..|elems| - 1]) + [elems[|elems| - 1].Kind()]
    ensures Kinds(elems)[..|elems| - 1] == Kinds(elems[..|elems| - 1])
  {
  }

  /** Counting the definitions of `elems[from..]` adds the last element's to
      those of the prefix. */
  lemma DefinitionsSnoc(sema: Sema, elems: seq<Element>, from: nat, n: Name)
    requires from < |elems|
    ensures Count(Definitions(sema, elems[from..]), Some(n)) ==
              Count(Definitions(sema, elems[..|elems| - 1][from..]), Some(n))
              + (if DefinedLocal(sema, elems[|elems| - 1]) == Some(n) then 1 else 0)
  {
    var p := elems[..|elems| - 1];
    var x := elems[|elems| - 1];
    var last: seq<Option<Name>> := [DefinedLocal(sema, x)];
    assert Count(last, Some(n)) == if DefinedLocal(sema, x) == Some(n) then 1 else 0 by {
      assert last[..0] == [];
    }
    assert elems[from..] == p[from..] + [x];
    assert Definitions(sema, elems[from..]) == Definitions(sema, p[from..]) + last;
    CountAppend(Definitions(sema, p[from..]), last, Some(n));
  }

  /** Elements that neither start a function nor define `n` leave the count
      of `n` alone. */
  lemma {:induction false} CountStable(sema: Sema, shadow: ShadowMap, elems: seq<Element>, j: nat, n: Name)
    requires j < |elems|
    requires forall i :: j < i < |elems| ==> elems[i].Kind() != FN_DEF && DefinedLocal(sema, elems[i]) != Some(n)
    ensures ShadowCount(ShadowAfter(sema, shadow, elems), n) == ShadowCount(ShadowAfter(sema, shadow, elems[..j + 1]), n)
    decreases |elems|
  {
    if |elems| > j + 1 {
      var p := elems[..|elems| - 1];
      CountStable(sema, shadow, p, j, n);
      assert p[..j + 1] == elems[..j + 1];
      CountStep(sema, ShadowAfter(sema, shadow, p), elems[|elems| - 1], n);
    } else {
      assert elems[..j + 1] == elems;
    }
  }

  /** A reference to a local is hashed like the latest definition of that
      name in the same function, so a binding and its uses share a colour
      while a shadowing binding gets a new one. */
  lemma ReferenceSharesDefinitionHash(sema: Sema, shadow: ShadowMap, elems: seq<Element>, j: nat, ref: Element)
    requires j < |elems| && DefinedLocal(sema, elems[j]).Some?
    requires forall i :: j < i < |elems| ==>
               elems[i].Kind() != FN_DEF && DefinedLocal(sema, elems[i]) != DefinedLocal(sema, elems[j])
    requires ReferencedLocal(sema, ref) == DefinedLocal(sema, elems[j])
    ensures HighlightElement(sema, ShadowAfter(sema, shadow, elems), ref).styled.Some?
    ensures HighlightElement(sema, ShadowAfter(sema, shadow, elems[..j]), elems[j]).styled.Some?
    ensures HighlightElement(sema, ShadowAfter(sema, shadow, elems), ref).styled.value.bindingHash ==
              HighlightElement(sema, ShadowAfter(sema, shadow, elems[..j]), elems[j]).styled.value.bindingHash
  {
    var n := DefinedLocal(sema, elems[j]).value;
    CountStable(sema, shadow, elems, j, n);
    assert elems[..j + 1][..j] == elems[..j];
  }

  /** Right after a function starts, the first definition of a name is
      hashed with count 1 and the k-th with count k. */
  lemma DefinitionHashCountsFromFunctionStart(sema: Sema, shadow: ShadowMap, elems: seq<Element>, def: Element)
    requires |elems| > 0 && elems[0].Kind() == FN_DEF
    requires forall i :: 0 < i < |elems| ==> elems[i].Kind() != FN_DEF
    requires DefinedLocal(sema, def).Some?
    ensures HighlightElement(sema, ShadowAfter(sema, shadow, elems), def).styled.Some?
    ensures var n := DefinedLocal(sema, def).value;
            HighlightElement(sema, ShadowAfter(sema, shadow, elems), def).styled.value.bindingHash ==
              Some(sema.bindingHash(n, Count(Definitions(sema, elems[1..]), Some(n)) + 1))
  {
    var n := DefinedLocal(sema, def).value;
    var m := ShadowAfter(sema, shadow, elems);
    assert ShadowCount(m, n) == Count(Definitions(sema, elems[1..]), Some(n)) by {
      ShadowCountsDefinitions(sema, shadow, elems, n);
      OnlyStartResets(elems);
    }
  }

  lemma OnlyStartResets(elems: seq<Element>)
    requires |elems| > 0 && elems[0].Kind() == FN_DEF
    requires forall i :: 0 < i < |elems| ==> elems[i].Kind() != FN_DEF
    ensures FN_DEF in Kinds(elems) && FindLast(Kinds(elems), FN_DEF) == Some(0)
  {
    var ks := Kinds(elems);
    assert ks[0] == FN_DEF;
    var i := FindLast(ks, FN_DEF).value;
    if i != 0 {
      assert false;
    }
  }
}
