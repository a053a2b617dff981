/** The concrete syntax tree the highlighter walks: kinds, elements (a node
    or a token together with its chain of ancestors) and the enter/leave
    event sequence of a preorder walk. The parser that builds trees is not
    part of this model; trees are inputs. */
module Syntax {
  import opened Wrappers
  import opened TextSize

  /** The syntax kinds the core inspects, under their names in the source.
      Kinds the core never distinguishes are folded into `OTHER_NODE` and
      `OTHER_TOKEN`. */
  datatype SyntaxKind =
    // node kinds
    | SOURCE_FILE | FN_DEF | NAME | NAME_REF | MACRO_CALL | TOKEN_TREE
    | PATH | PATH_SEGMENT | ATTR | LIFETIME_PARAM | LABEL
    | STRUCT_DEF | ENUM_DEF | UNION_DEF | TRAIT_DEF | TYPE_ALIAS_DEF
    | TYPE_PARAM | RECORD_FIELD_DEF
    | OTHER_NODE(nodeCode: nat)
    // token kinds
    | IDENT | BANG | WHITESPACE | COMMENT
    | STRING | RAW_STRING | BYTE_STRING | RAW_BYTE_STRING
    | INT_NUMBER | FLOAT_NUMBER | BYTE | CHAR | LIFETIME
    | AS_KW | ASYNC_KW | AWAIT_KW | BOX_KW | BREAK_KW | CONST_KW | CONTINUE_KW
    | CRATE_KW | DYN_KW | ELSE_KW | ENUM_KW | EXTERN_KW | FALSE_KW | FN_KW
    | FOR_KW | IF_KW | IMPL_KW | IN_KW | LET_KW | LOOP_KW | MACRO_KW | MATCH_KW
    | MOD_KW | MOVE_KW | MUT_KW | PUB_KW | REF_KW | RETURN_KW | SELF_KW
    | STATIC_KW | STRUCT_KW | SUPER_KW | TRAIT_KW | TRUE_KW | TRY_KW | TYPE_KW
    | UNSAFE_KW | USE_KW | WHERE_KW | WHILE_KW
    | AUTO_KW | DEFAULT_KW | EXISTENTIAL_KW | UNION_KW | RAW_KW
    | OTHER_TOKEN(tokenCode: nat)
  {
    predicate IsKeyword() {
      || AS_KW? || ASYNC_KW? || AWAIT_KW? || BOX_KW? || BREAK_KW? || CONST_KW?
      || CONTINUE_KW? || CRATE_KW? || DYN_KW? || ELSE_KW? || ENUM_KW?
      || EXTERN_KW? || FALSE_KW? || FN_KW? || FOR_KW? || IF_KW? || IMPL_KW?
      || IN_KW? || LET_KW? || LOOP_KW? || MACRO_KW? || MATCH_KW? || MOD_KW?
      || MOVE_KW? || MUT_KW? || PUB_KW? || REF_KW? || RETURN_KW? || SELF_KW?
      || STATIC_KW? || STRUCT_KW? || SUPER_KW? || TRAIT_KW? || TRUE_KW?
      || TRY_KW? || TYPE_KW? || UNSAFE_KW? || USE_KW? || WHERE_KW? || WHILE_KW?
      || AUTO_KW? || DEFAULT_KW? || EXISTENTIAL_KW? || UNION_KW? || RAW_KW?
    }

    /** Tokens are the leaves of the tree; every other kind is a node. */
    predicate IsToken() {
      || IDENT? || BANG? || WHITESPACE? || COMMENT? || STRING? || RAW_STRING?
      || BYTE_STRING? || RAW_BYTE_STRING? || INT_NUMBER? || FLOAT_NUMBER?
      || BYTE? || CHAR? || LIFETIME? || OTHER_TOKEN? || IsKeyword()
    }
  }

  /** A node or a token at an absolute byte range. Tokens carry their text;
      nodes carry their children in source order. */
  datatype Tree = Tree(kind: SyntaxKind, range: TextRange, text: seq<byte>, children: seq<Tree>)

  /** What a parsed tree guarantees: ranges are valid, a token's text is as
      long as its range, and children lie inside their parent in order. */
  predicate WellFormed(t: Tree)
    decreases t
  {
    && t.range.Valid()
    && (t.kind.IsToken() ==> |t.children| == 0 && |t.text| == t.range.Len())
    && (forall i :: 0 <= i < |t.children| ==>
          t.range.ContainsRange(t.children[i].range) && WellFormed(t.children[i]))
    && (forall i :: 0 < i < |t.children| ==>
          t.children[i - 1].range.end <= t.children[i].range.start)
  }

  /** A position in a tree: the element itself and its ancestors, nearest
      first. Two elements are the same syntax element exactly when they are
      equal values (ranges are absolute, so distinct positions differ). */
  datatype Element = Element(tree: Tree, ancestors: seq<Tree>) {

    function Kind(): SyntaxKind { tree.kind }

    function Range(): TextRange { tree.range }

    predicate IsToken() { tree.kind.IsToken() }

    function Parent(): (p: Option<Element>)
      ensures p.Some? <==> |ancestors| > 0
      ensures p.Some? ==> p.value.tree == ancestors[0]
    {
      if |ancestors| == 0 then None else Some(Element(ancestors[0], ancestors[1..]))
    }

    /** Kind of the parent, if there is one. */
    function ParentKind(): Option<SyntaxKind> {
      if |ancestors| == 0 then None else Some(ancestors[0].kind)
    }

    /** `element.ancestors().any(|it| it.kind() == k)`: a node's ancestors
        start with the node itself, a token's with its parent. */
    predicate HasAncestorOfKind(k: SyntaxKind) {
      (!IsToken() && tree.kind == k) || exists i :: 0 <= i < |ancestors| && ancestors[i].kind == k
    }
  }

  datatype WalkEvent = Enter(elem: Element) | Leave(elem: Element)

  /** `preorder_with_tokens`: enter an element, walk its children in order,
      leave it. */
  function Preorder(e: Element): (evs: seq<WalkEvent>)
    decreases e.tree, 1
    ensures |evs| >= 2 && evs[0] == Enter(e) && evs[|evs| - 1] == Leave(e)
  {
    [Enter(e)] + ChildrenPreorder(e.tree, e.ancestors, 0) + [Leave(e)]
  }

  /** The preorder walks of the children of `t` from the `i`-th on,
      concatenated. */
  function ChildrenPreorder(t: Tree, anc: seq<Tree>, i: nat): seq<WalkEvent>
    decreases t, 0, |t.children| - i
  {
    if i >= |t.children| then []
    else Preorder(Element(t.children[i], [t] + anc)) + ChildrenPreorder(t, anc, i + 1)
  }

  /** Index of the first child of `t` of kind `k`, the way the typed AST
      accessors (`path()`, `segment()`, `name_ref()`) find a child. */
  function FirstChildOfKind(t: Tree, k: SyntaxKind): (r: Option<nat>)
    ensures r.Some? ==> r.value < |t.children| && t.children[r.value].kind == k
    ensures r.Some? ==> forall j :: 0 <= j < r.value ==> t.children[j].kind != k
    ensures r.None? ==> forall j :: 0 <= j < |t.children| ==> t.children[j].kind != k
  {
    FirstChildFrom(t, k, 0)
  }

  function FirstChildFrom(t: Tree, k: SyntaxKind, i: nat): (r: Option<nat>)
    requires forall j :: 0 <= j < i && j < |t.children| ==> t.children[j].kind != k
    decreases |t.children| - i
    ensures r.Some? ==> i <= r.value < |t.children| && t.children[r.value].kind == k
    ensures r.Some? ==> forall j :: 0 <= j < r.value ==> t.children[j].kind != k
    ensures r.None? ==> forall j :: 0 <= j < |t.children| ==> t.children[j].kind != k
  {
    if i >= |t.children| then None
    else if t.children[i].kind == k then Some(i)
    else FirstChildFrom(t, k, i + 1)
  }
}
