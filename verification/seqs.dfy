/** Facts about sequences used across the model: prefixes, occurrence
    counts, and first/last search (`str::find` / `str::rfind`). */
module Seqs {
  import opened Wrappers

  predicate StartsWith<T(==)>(s: seq<T>, prefix: seq<T>) {
    |prefix| <= |s| && s[..|prefix|] == prefix
  }

  /** Number of occurrences of `x` in `s`. */
  function Count<T(==)>(s: seq<T>, x: T): nat {
    if |s| == 0 then 0 else Count(s[..|s| - 1], x) + (if s[|s| - 1] == x then 1 else 0)
  }

  lemma {:induction false} CountAppend<T>(a: seq<T>, b: seq<T>, x: T)
    ensures Count(a + b, x) == Count(a, x) + Count(b, x)
    decreases |b|
  {
    if |b| == 0 {
      assert a + b == a;
    } else {
      assert (a + b)[..|a + b| - 1] == a + b[..|b| - 1];
      CountAppend(a, b[..|b| - 1], x);
    }
  }

  lemma {:induction false} CountZero<T>(s: seq<T>, x: T)
    ensures Count(s, x) == 0 <==> x !in s
    decreases |s|
  {
    if |s| > 0 {
      CountZero(s[..|s| - 1], x);
      assert s == s[..|s| - 1] + [s[|s| - 1]];
    }
  }

  /** Splitting `s` around one occurrence of `x` at `i`. */
  lemma CountAround<T>(s: seq<T>, i: nat, x: T)
    requires i < |s| && s[i] == x
    ensures Count(s, x) == Count(s[..i], x) + 1 + Count(s[i + 1..], x)
  {
    assert s == s[..i] + ([s[i]] + s[i + 1..]);
    CountAppend(s[..i], [s[i]] + s[i + 1..], x);
    CountAppend([s[i]], s[i + 1..], x);
    assert Count([s[i]], x) == 1 by {
      assert [s[i]][..0] == [];
    }
  }

  /** `find`: the index of the first occurrence of `x`. */
  function FindFirst<T(==)>(s: seq<T>, x: T): (r: Option<nat>)
    ensures r.None? <==> x !in s
    ensures r.Some? ==> r.value < |s| && s[r.value] == x && x !in s[..r.value]
  {
    if |s| == 0 then None
    else if s[0] == x then Some(0)
    else match FindFirst(s[1..], x)
      case None => None
      case Some(i) => assert s[..i + 1] == [s[0]] + s[1..][..i]; Some(i + 1)
  }

  /** `rfind`: the index of the last occurrence of `x`. */
  function FindLast<T(==)>(s: seq<T>, x: T): (r: Option<nat>)
    ensures r.None? <==> x !in s
    ensures r.Some? ==> r.value < |s| && s[r.value] == x && x !in s[r.value + 1..]
  {
    if |s| == 0 then None
    else if s[|s| - 1] == x then Some(|s| - 1)
    else match FindLast(s[..|s| - 1], x)
      case None => None
      case Some(i) => assert s[i + 1..] == s[..|s| - 1][i + 1..] + [s[|s| - 1]]; Some(i)
  }
}
