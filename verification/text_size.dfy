/** Byte offsets and half-open byte ranges `[start, end)` over UTF-8 text,
    with the operations of the text_size crate that the core relies on. */
module TextSize {
  import opened Wrappers

  type byte = b: int | 0 <= b < 256

  datatype TextRange = TextRange(start: nat, end: nat) {

    /** `TextRange::new` asserts this; every range the model builds has it. */
    predicate Valid() {
      start <= end
    }

    function Len(): nat
      requires Valid()
    {
      end - start
    }

    predicate IsEmpty() {
      start == end
    }

    predicate ContainsRange(other: TextRange) {
      start <= other.start && other.end <= end
    }

    /** `range + offset`: the same range moved right by `offset`. */
    function Shift(offset: nat): TextRange {
      TextRange(start + offset, end + offset)
    }
  }

  /** `TextRange::at(offset, len)`. */
  function At(offset: nat, len: nat): TextRange {
    TextRange(offset, offset + len)
  }

  /** `TextRange::up_to(len)`. */
  function UpTo(len: nat): TextRange {
    TextRange(0, len)
  }

  function Max(a: nat, b: nat): nat { if a < b then b else a }

  function Min(a: nat, b: nat): nat { if a < b then a else b }

  /** `TextRange::intersect`: the common part, present even when it is empty
      (two ranges that only touch intersect in an empty range). */
  function Intersect(a: TextRange, b: TextRange): (r: Option<TextRange>)
    ensures a.Valid() && b.Valid() ==> (r.Some? <==> a.start <= b.end && b.start <= a.end)
    ensures r.Some? ==> a.ContainsRange(r.value) && b.ContainsRange(r.value) && r.value.Valid()
  {
    var start := Max(a.start, b.start);
    var end := Min(a.end, b.end);
    if end < start then None else Some(TextRange(start, end))
  }

  predicate Intersects(a: TextRange, b: TextRange) {
    Intersect(a, b).Some?
  }

  /** The bytes of an ASCII string literal. */
  function Ascii(s: string): (r: seq<byte>)
    requires forall i :: 0 <= i < |s| ==> s[i] as int < 128
    ensures |r| == |s|
    ensures forall i :: 0 <= i < |s| ==> r[i] == s[i] as int
  {
    if |s| == 0 then [] else [s[0] as int as byte] + Ascii(s[1..])
  }

  const QUOTE: byte := 0x22      // '"'
  const NEWLINE: byte := 0x0A    // '\n'
}
