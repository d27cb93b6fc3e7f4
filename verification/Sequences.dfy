/** Occurrences of one sequence in another, and a fact about concatenation that the solver is better told. */
module Sequences {
  import opened Options

  lemma Assoc<T>(a: seq<T>, b: seq<T>, c: seq<T>)
    ensures a + (b + c) == a + b + c
  { }

  predicate OccursAt<T(==)>(raw: seq<T>, pattern: seq<T>, k: int) {
    0 <= k && k + |pattern| <= |raw| && raw[k..k + |pattern|] == pattern
  }

  /** The first occurrence at or after `i`. */
  function FindFrom<T(==)>(raw: seq<T>, pattern: seq<T>, i: nat): (r: Option<nat>)
    decreases |raw| - i
  {
    if i + |pattern| > |raw| then None
    else if raw[i..i + |pattern|] == pattern then Some(i)
    else FindFrom(raw, pattern, i + 1)
  }

  lemma {:induction false} FindFromIsFirst<T>(raw: seq<T>, pattern: seq<T>, i: nat)
    ensures var r := FindFrom(raw, pattern, i);
            if r.Some? then
              i <= r.value && OccursAt(raw, pattern, r.value) &&
              forall k :: i <= k < r.value ==> !OccursAt(raw, pattern, k)
            else forall k :: i <= k ==> !OccursAt(raw, pattern, k)
    decreases |raw| - i
  {
    if i + |pattern| <= |raw| && raw[i..i + |pattern|] != pattern {
      FindFromIsFirst(raw, pattern, i + 1);
    }
  }
}
