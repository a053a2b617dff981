/** The highlighted span of a macro call: from its name to the last `!` or
    identifier that follows the path, as in `foo!` or `macro_rules! name`. */
module MacroRange {
  import opened Wrappers
  import opened TextSize
  import opened Syntax

  /** The tokens that extend the span: `!` and identifiers. */
  predicate IsMarker(k: SyntaxKind) {
    k == BANG || k == IDENT
  }

  /** Index of the last marker among `cs`. */
  function LastMarker(cs: seq<Tree>): (r: Option<nat>)
    ensures r.None? <==> forall i :: 0 <= i < |cs| ==> !IsMarker(cs[i].kind)
    ensures r.Some? ==> r.value < |cs| && IsMarker(cs[r.value].kind)
    ensures r.Some? ==> forall j :: r.value < j < |cs| ==> !IsMarker(cs[j].kind)
  {
    if |cs| == 0 then None
    else if IsMarker(cs[|cs| - 1].kind) then Some(|cs| - 1)
    else LastMarker(cs[..|cs| - 1])
  }

  /** The last marker of `cs` seen from its first element: in the rest of
      the sequence, or else the first element itself if it is one. */
  lemma {:induction false} LastMarkerCons(cs: seq<Tree>)
    requires |cs| > 0
    ensures LastMarker(cs) ==
      match LastMarker(cs[1..])
      case Some(j) => Some(j + 1)
      case None => if IsMarker(cs[0].kind) then Some(0) else None
  {
    match LastMarker(cs[1..])
    case Some(j) => LastMarkerInTail(cs, j);
    case None => LastMarkerAtHead(cs);
  }

  lemma LastMarkerInTail(cs: seq<Tree>, j: nat)
    requires |cs| > 0 && LastMarker(cs[1..]) == Some(j)
    ensures LastMarker(cs) == Some(j + 1)
  {
    var rest := cs[1..];
    assert cs[j + 1] == rest[j];
    var k := LastMarker(cs).value;
    assert j + 1 <= k;
    assert rest[k - 1] == cs[k];
    assert k - 1 <= j;
  }

  lemma LastMarkerAtHead(cs: seq<Tree>)
    requires |cs| > 0 && LastMarker(cs[1..]).None?
    ensures LastMarker(cs) == if IsMarker(cs[0].kind) then Some(0) else None
  {
    var rest := cs[1..];
    forall t | 0 < t < |cs|
      ensures !IsMarker(cs[t].kind)
    {
      assert cs[t] == rest[t - 1];
    }
    if IsMarker(cs[0].kind) {
      assert LastMarker(cs).value == 0;
    }
  }

  /** The loop over the path's following siblings: every marker moves the
      end to its own end, so the last marker decides. */
  function MarkersEnd(cs: seq<Tree>, end: nat): (r: nat)
    decreases |cs|
    ensures match LastMarker(cs)
      case None => r == end
      case Some(i) => r == cs[i].range.end
  {
    if |cs| == 0 then end
    else
      LastMarkerCons(cs);
      var rest := MarkersEnd(cs[1..], if IsMarker(cs[0].kind) then cs[0].range.end else end);
      match LastMarker(cs[1..])
      case Some(j) =>
        assert cs[1..][j] == cs[j + 1];
        rest
      case None => rest
  }

  /** The parts of a macro call the span is built from: the index of its
      path among its children and the name reference of the path's
      segment. */
  datatype MacroParts = MacroParts(pathIndex: nat, segmentIndex: nat, nameRefIndex: nat)

  /** `macro_call.path()?.segment()?.name_ref()?`: first children of the
      expected kinds, each inside the previous one. */
  function PartsOf(mc: Tree): (r: Option<MacroParts>)
    ensures r.Some? ==>
      && r.value.pathIndex < |mc.children|
      && mc.children[r.value.pathIndex].kind == PATH
      && r.value.segmentIndex < |mc.children[r.value.pathIndex].children|
      && mc.children[r.value.pathIndex].children[r.value.segmentIndex].kind == PATH_SEGMENT
      && r.value.nameRefIndex < |mc.children[r.value.pathIndex].children[r.value.segmentIndex].children|
      && NameRefOf(mc, r.value).kind == NAME_REF
    ensures r.None? <==>
      || FirstChildOfKind(mc, PATH).None?
      || FirstChildOfKind(mc.children[FirstChildOfKind(mc, PATH).value], PATH_SEGMENT).None?
      || FirstChildOfKind(mc.children[FirstChildOfKind(mc, PATH).value]
           .children[FirstChildOfKind(mc.children[FirstChildOfKind(mc, PATH).value], PATH_SEGMENT).value], NAME_REF).None?
  {
    match FirstChildOfKind(mc, PATH)
    case None => None
    case Some(p) =>
      var path := mc.children[p];
      match FirstChildOfKind(path, PATH_SEGMENT)
      case None => None
      case Some(sg) =>
        match FirstChildOfKind(path.children[sg], NAME_REF)
        case None => None
        case Some(nr) => Some(MacroParts(p, sg, nr))
  }

  function NameRefOf(mc: Tree, parts: MacroParts): Tree
    requires parts.pathIndex < |mc.children|
    requires parts.segmentIndex < |mc.children[parts.pathIndex].children|
    requires parts.nameRefIndex < |mc.children[parts.pathIndex].children[parts.segmentIndex].children|
  {
    mc.children[parts.pathIndex].children[parts.segmentIndex].children[parts.nameRefIndex]
  }

  /** `macro_call_range`: `Ok(None)` without a path, segment or name
      reference; otherwise from the name reference's start to the end of
      the last marker from the path on, or to the name reference's end
      when there is none. Building a range whose end precedes its start is
      the panic of `TextRange::new`. */
  function MacroCallRange(mc: Tree): (r: Result<Option<TextRange>, Fault>)
    ensures r == Ok(None) <==> PartsOf(mc).None?
    ensures r.Err? ==> r.error == InvertedRange
    ensures PartsOf(mc).Some? ==>
      var parts := PartsOf(mc).value;
      var name := NameRefOf(mc, parts);
      var following := mc.children[parts.pathIndex..];
      var end := match LastMarker(following)
        case None => name.range.end
        case Some(i) => following[i].range.end;
      && (r.Err? <==> end < name.range.start)
      && (r.Ok? ==> r.value == Some(TextRange(name.range.start, end)))
  {
    match PartsOf(mc)
    case None => Ok(None)
    case Some(parts) =>
      var name := NameRefOf(mc, parts);
      var end := MarkersEnd(mc.children[parts.pathIndex..], name.range.end);
      if end < name.range.start then Err(InvertedRange)
      else Ok(Some(TextRange(name.range.start, end)))
  }

  /** Children of a well-formed tree are ordered: an earlier child ends no
      later than a later one starts. */
  lemma {:induction false} ChildrenOrdered(t: Tree, i: nat, j: nat)
    requires WellFormed(t)
    requires i < j < |t.children|
    ensures t.children[i].range.end <= t.children[j].range.start
    decreases j - i
  {
    if j > i + 1 {
      ChildrenOrdered(t, i, j - 1);
      assert WellFormed(t.children[j - 1]);
    }
  }

  /** In a parsed (well-formed) macro call with a name, the span never
      panics, covers the name reference and lies within the call. */
  lemma {:induction false} MacroCallRangeWithinCall(mc: Tree)
    requires WellFormed(mc)
    requires PartsOf(mc).Some?
    ensures MacroCallRange(mc).Ok? && MacroCallRange(mc).value.Some?
    ensures MacroCallRange(mc).value.value.ContainsRange(NameRefOf(mc, PartsOf(mc).value).range)
    ensures mc.range.ContainsRange(MacroCallRange(mc).value.value)
  {
    var parts := PartsOf(mc).value;
    var path := mc.children[parts.pathIndex];
    var segment := path.children[parts.segmentIndex];
    var name := NameRefOf(mc, parts);
    assert WellFormed(path) && WellFormed(segment) && WellFormed(name);
    assert path.range.ContainsRange(name.range);
    var following := mc.children[parts.pathIndex..];
    match LastMarker(following)
    case None =>
    case Some(i) =>
      assert following[i] == mc.children[parts.pathIndex + i];
      assert i > 0;
      ChildrenOrdered(mc, parts.pathIndex, parts.pathIndex + i);
      assert WellFormed(following[i]);
  }
}
