/** What a highlighted range is labelled with: a tag and a set of
    modifiers (`Highlight`), plus the range and an optional binding hash
    (`HighlightedRange`). The tag and modifier lists are those the
    highlighter produces. */
module HighlightTags {
  import opened Wrappers
  import opened TextSize

  datatype HighlightTag =
    | Attribute | BuiltinType | ByteLiteral | CharLiteral | Comment | Constant
    | Enum | EnumVariant | Field | Function | Keyword | Lifetime | Macro
    | Module | NumericLiteral | SelfType | Static | StringLiteral | Struct
    | Trait | TypeAlias | TypeParam | Union | Local

  datatype HighlightModifier = Definition | ControlFlow | Mutable | Unsafe

  datatype Highlight = Highlight(tag: HighlightTag, modifiers: set<HighlightModifier>)

  /** `Highlight::new(tag)` and `tag.into()`: a tag with no modifiers. */
  function Plain(tag: HighlightTag): (h: Highlight)
    ensures h.tag == tag && h.modifiers == {}
  {
    Highlight(tag, {})
  }

  /** `h | modifier`: the same tag, one more modifier. */
  function With(h: Highlight, m: HighlightModifier): (r: Highlight)
    ensures r.tag == h.tag
    ensures m in r.modifiers && h.modifiers <= r.modifiers
    ensures forall x :: x in r.modifiers ==> x == m || x in h.modifiers
  {
    Highlight(h.tag, h.modifiers + {m})
  }

  /** A binding hash is the 64-bit output of a hasher. */
  type BindingHash = h: nat | h < 0x1_0000_0000_0000_0000

  datatype HighlightedRange = HighlightedRange(range: TextRange, highlight: Highlight, bindingHash: Option<BindingHash>)
}
