/** What the walk may emit: ranges inside a bound, and the validity of the
    ranges the nested analysis returns. */
module Emission {
  import opened TextSize
  import opened HighlightTags
  import opened Semantics
  import opened Wrappers
  import opened Walker

  /** The nested analysis returns ranges whose start is not past their end,
      as every `TextRange` is. */
  ghost predicate NestedRangesValid(sema: Sema) {
    forall v: seq<byte>, i :: 0 <= i < |sema.nestedHighlight(v)| ==> sema.nestedHighlight(v)[i].range.Valid()
  }

  /** A step or walk from `s` that, if it finishes, only appends ranges lying
      inside `bound`. */
  predicate AddsWithin(s: State, r: Result<State, Fault>, bound: TextRange) {
    r.Ok? ==>
      && s.out <= r.value.out
      && forall i :: |s.out| <= i < |r.value.out| ==> bound.ContainsRange(r.value.out[i].range)
  }

  /** A result that appends `added` to the output, all inside `bound`. */
  lemma AppendsWithin(s: State, r: Result<State, Fault>, added: seq<HighlightedRange>, bound: TextRange)
    requires r.Ok? ==> r.value.out == s.out + added
    requires forall i :: 0 <= i < |added| ==> bound.ContainsRange(added[i].range)
    ensures AddsWithin(s, r, bound)
  {
    if r.Ok? {
      forall i | |s.out| <= i < |r.value.out| ensures bound.ContainsRange(r.value.out[i].range) {
        assert r.value.out[i] == added[i - |s.out|];
      }
    }
  }

  lemma AddsWithinChain(s: State, t: State, r: Result<State, Fault>, bound: TextRange)
    requires AddsWithin(s, Ok(t), bound) && AddsWithin(t, r, bound)
    ensures AddsWithin(s, r, bound)
  {
    if r.Ok? {
      forall i | |s.out| <= i < |r.value.out| ensures bound.ContainsRange(r.value.out[i].range) {
        if i < |t.out| {
          assert r.value.out[i] == t.out[i];
        }
      }
    }
  }
}

