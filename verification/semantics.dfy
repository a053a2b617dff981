/** The semantic information the highlighter consults but does not compute:
    name resolution, macro descent, call information, the analysis of a
    nested snippet and the binding hasher. Each is an oracle, a field of
    `Sema`, so that every property proved holds whatever they answer. */
module Semantics {
  import opened Wrappers
  import opened TextSize
  import opened Syntax
  import opened HighlightTags

  /** Identifier text of a binding. */
  type Name = string

  /** A local binding, with the answers of `local.name(db)`,
      `local.is_mut(db)` and `local.ty(db).is_mutable_reference()`. */
  datatype LocalBinding = LocalBinding(name: Option<Name>, isMut: bool, tyIsMutableReference: bool)

  datatype Adt = Struct | Enum | Union

  datatype ModuleDef =
    | Module | Function | Adt(adt: Adt) | EnumVariant | Const | Static
    | Trait | TypeAlias | BuiltinType

  datatype Definition =
    | Macro | StructField | ModuleDef(def: ModuleDef) | SelfType | TypeParam
    | Local(local: LocalBinding)

  /** What `classify_name` says of a `Name` node. */
  datatype NameClass = Defines(def: Definition) | ConstReference(def: Definition)

  /** What `classify_name_ref` says of a `NameRef` node. */
  datatype NameRefClass = RefersTo(def: Definition) | FieldShorthand

  /** `call_info_for_token`: the active argument, if any, and the names of
      the callee's parameters. */
  datatype CallInfo = CallInfo(activeParameter: Option<nat>, parameterNames: seq<string>)

  datatype Sema = Sema(
    classifyName: Element -> Option<NameClass>,
    classifyNameRef: Element -> Option<NameRefClass>,
    /** `descend_into_macros`: the token in the expansion a macro-call
        argument token stands for. */
    descend: Element -> Element,
    callInfo: Element -> Option<CallInfo>,
    /** The highlighting of a snippet analysed as a file of its own. */
    nestedHighlight: seq<byte> -> seq<HighlightedRange>,
    /** `calc_binding_hash(name, shadow_count)`. */
    bindingHash: (Name, nat) -> BindingHash,
    /** `covering_element` of the file being highlighted. */
    coveringElement: TextRange -> Element)
}
