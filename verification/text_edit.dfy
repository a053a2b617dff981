/** An atomic text edit: delete a byte range of the original text and put
    new text in its place. */
module TextEdit {
  import opened TextSize

  datatype AtomTextEdit = AtomTextEdit(delete: TextRange, insert: seq<byte>)

  /** `AtomTextEdit::replace`. */
  function Replace(range: TextRange, replaceWith: seq<byte>): (e: AtomTextEdit)
    ensures e.delete == range && e.insert == replaceWith
  {
    AtomTextEdit(range, replaceWith)
  }

  /** `AtomTextEdit::delete`: a replacement by nothing. */
  function Delete(range: TextRange): (e: AtomTextEdit)
    ensures e.delete == range && e.insert == []
  {
    Replace(range, [])
  }

  /** `AtomTextEdit::insert`: a replacement of the empty range at `offset`. */
  function Insert(offset: nat, text: seq<byte>): (e: AtomTextEdit)
    ensures e.delete.IsEmpty() && e.delete.start == offset && e.insert == text
  {
    Replace(At(offset, 0), text)
  }

  /** The edit can be applied to `text`: `replace_range` panics unless
      start <= end <= length. */
  predicate Applicable(e: AtomTextEdit, text: seq<byte>) {
    e.delete.start <= e.delete.end <= |text|
  }

  /** `AtomTextEdit::apply`: the bytes before the deleted range stay where
      they are, the inserted text follows, and the bytes after the deleted
      range follow it, moved by |insert| - (end - start). */
  function Apply(e: AtomTextEdit, text: seq<byte>): (r: seq<byte>)
    requires Applicable(e, text)
    ensures |r| == |text| - (e.delete.end - e.delete.start) + |e.insert|
    ensures forall i :: 0 <= i < e.delete.start ==> r[i] == text[i]
    ensures forall i :: 0 <= i < |e.insert| ==> r[e.delete.start + i] == e.insert[i]
    ensures forall i :: e.delete.end <= i < |text| ==>
              r[i - (e.delete.end - e.delete.start) + |e.insert|] == text[i]
  {
    text[..e.delete.start] + e.insert + text[e.delete.end..]
  }

  /** Inserting nothing leaves the text as it was. */
  lemma InsertNothingIsIdentity(offset: nat, text: seq<byte>)
    requires offset <= |text|
    ensures Apply(Insert(offset, []), text) == text
  {
    assert text[..offset] + [] + text[offset..] == text;
  }

  /** Replacing a range by its own current contents leaves the text as it
      was. */
  lemma ReplaceBySameIsIdentity(range: TextRange, text: seq<byte>)
    requires range.start <= range.end <= |text|
    ensures Apply(Replace(range, text[range.start..range.end]), text) == text
  {
    assert text[..range.start] + text[range.start..range.end] + text[range.end..] == text;
  }

  /** Deleting `[s, e)` removes exactly e - s bytes at position s. */
  lemma DeleteRemovesRange(s: nat, e: nat, text: seq<byte>)
    requires s <= e <= |text|
    ensures |Apply(Delete(TextRange(s, e)), text)| == |text| - (e - s)
    ensures Apply(Delete(TextRange(s, e)), text) == text[..s] + text[e..]
  {
  }

  /** An edit is undone by the edit that puts the deleted bytes back over
      the inserted ones. */
  lemma {:induction false} UndoRestores(e: AtomTextEdit, text: seq<byte>)
    requires Applicable(e, text)
    ensures Applicable(Replace(At(e.delete.start, |e.insert|), text[e.delete.start..e.delete.end]), Apply(e, text))
    ensures Apply(Replace(At(e.delete.start, |e.insert|), text[e.delete.start..e.delete.end]), Apply(e, text)) == text
  {
    var s, t := e.delete.start, e.delete.end;
    var edited := Apply(e, text);
    assert edited == text[..s] + e.insert + text[t..];
    assert edited[..s] == text[..s];
    assert edited[s + |e.insert|..] == text[t..];
    assert text[..s] + text[s..t] + text[t..] == text;
  }
}
