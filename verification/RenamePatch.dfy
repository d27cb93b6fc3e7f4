/**
 * Rename patches: a find and a replace pattern that differ in the first byte of the target, applied from left to
 * right to non-overlapping matches.
 */
module RenamePatch {
  import opened Options
  import opened Sequences
  import opened ByteSearch

  // ------------------------------------------------------------------ applying a patch

  function ReplaceFrom(raw: seq<Byte>, find: seq<Byte>, replace: seq<Byte>, i: nat): seq<Byte>
    requires find != [] && i <= |raw|
    decreases |raw| - i
  {
    match FindFrom(raw, find, i)
    case None => raw[i..]
    case Some(k) =>
      FindFromIsFirst(raw, find, i);
      raw[i..k] + replace + ReplaceFrom(raw, find, replace, k + |find|)
  }

  function Replace(raw: seq<Byte>, find: seq<Byte>, replace: seq<Byte>): seq<Byte>
    requires find != []
  {
    ReplaceFrom(raw, find, replace, 0)
  }

  lemma ReplaceOnce(raw: seq<Byte>, find: seq<Byte>, replace: seq<Byte>) returns (at: nat)
    requires find != [] && Count(raw, find) == 1
    ensures OccursAt(raw, find, at) && forall k :: 0 <= k < at ==> !OccursAt(raw, find, k)
    ensures Replace(raw, find, replace) == raw[..at] + replace + raw[at + |find|..]
  {
    FindFromIsFirst(raw, find, 0);
    at := FindFrom(raw, find, 0).value;
    var rest := at + |find|;
    assert CountFrom(raw, find, rest) == 0;
    assert ReplaceFrom(raw, find, replace, rest) == raw[rest..];
    assert raw[0..at] == raw[..at];
  }

  // ------------------------------------------------------------------ renaming

  /** Underscore and capital X in ASCII. */
  const UNDERSCORE := Byte('5', 'F')
  const LETTER_X := Byte('5', '8')

  /** The name that starts with an underscore, and the same name with X in its place. */
  ghost predicate Renames(name: seq<Byte>, renamed: seq<Byte>) {
    name != [] && name[0] == UNDERSCORE && renamed == name[0 := LETTER_X]
  }

  /**
   * A rename whose padded pattern is counted once changes exactly one byte of the table, an underscore to an X:
   * the one in the first occurrence of the pattern.
   */
  lemma RenameChangesOneByte(raw: seq<Byte>, padl: seq<Byte>, name: seq<Byte>, padr: seq<Byte>,
                             renamed: seq<Byte>) returns (at: nat)
    requires Renames(name, renamed) && Count(raw, padl + name + padr) == 1
    ensures OccursAt(raw, padl + name + padr, at) && forall k :: 0 <= k < at ==> !OccursAt(raw, padl + name + padr, k)
    ensures at + |padl| < |raw| && raw[at + |padl|] == UNDERSCORE
    ensures Replace(raw, padl + name + padr, padl + renamed + padr) == raw[at + |padl| := LETTER_X]
  {
    var find, replace := padl + name + padr, padl + renamed + padr;
    at := ReplaceOnce(raw, find, replace);
    var p := at + |padl|;
    assert raw[at..at + |find|][|padl|] == find[|padl|] == UNDERSCORE;
    assert replace == find[|padl| := LETTER_X];
    assert raw == raw[..at] + find + raw[at + |find|..];
  }

  /** It is the target's byte iff the pattern does not occur before the target. */
  lemma RenameHitsTargetIff(raw: seq<Byte>, padl: seq<Byte>, name: seq<Byte>, padr: seq<Byte>, renamed: seq<Byte>,
                            target: nat)
    requires Renames(name, renamed) && Count(raw, padl + name + padr) == 1
    requires |padl| <= target && OccursAt(raw, padl + name + padr, target - |padl|)
    ensures target < |raw|
    ensures Replace(raw, padl + name + padr, padl + renamed + padr) == raw[target := LETTER_X]
            <==> forall k :: 0 <= k < target - |padl| ==> !OccursAt(raw, padl + name + padr, k)
  {
    var find := padl + name + padr;
    var at := RenameChangesOneByte(raw, padl, name, padr, renamed);
    var k := target - |padl|;
    assert raw[k..k + |find|][|padl|] == find[|padl|];
    if at != k {
      assert raw[at + |padl| := LETTER_X][target] == UNDERSCORE;
    }
  }

  /** No proper prefix of the pattern is also a suffix, so two occurrences never overlap. */
  ghost predicate NoSelfOverlap(pattern: seq<Byte>) {
    forall n :: 0 < n < |pattern| ==> pattern[..n] != pattern[|pattern| - n..]
  }

  lemma OverlapIsBorder(raw: seq<Byte>, pattern: seq<Byte>, i: nat, j: nat)
    requires OccursAt(raw, pattern, i) && OccursAt(raw, pattern, j) && i < j < i + |pattern|
    ensures pattern[..i + |pattern| - j] == pattern[j - i..]
  {
    var n := i + |pattern| - j;
    assert raw[i..i + |pattern|][j - i..] == raw[j..j + n];
    assert raw[j..j + |pattern|][..n] == raw[j..j + n];
  }

  lemma OccurrencesApart(raw: seq<Byte>, pattern: seq<Byte>, i: nat, j: nat)
    requires NoSelfOverlap(pattern) && OccursAt(raw, pattern, i) && OccursAt(raw, pattern, j) && i < j
    ensures i + |pattern| <= j
  {
    if j < i + |pattern| {
      OverlapIsBorder(raw, pattern, i, j);
    }
  }

  lemma ApartCountsTwice(raw: seq<Byte>, find: seq<Byte>, at: nat, i: nat)
    requires find != [] && FindFrom(raw, find, 0) == Some(at)
    requires OccursAt(raw, find, i) && at + |find| <= i
    ensures Count(raw, find) >= 2
  {
    hide FindFrom, OccursAt;
    FindFromIsFirst(raw, find, at + |find|);
    assert CountFrom(raw, find, at + |find|) >= 1;
  }

  lemma CountedOnceIsFirst(raw: seq<Byte>, find: seq<Byte>, i: nat)
    requires find != [] && Count(raw, find) == 1 && NoSelfOverlap(find) && OccursAt(raw, find, i)
    ensures forall k :: 0 <= k < i ==> !OccursAt(raw, find, k)
  {
    FindFromIsFirst(raw, find, 0);
    var at := FindFrom(raw, find, 0).value;
    if at < i {
      OccurrencesApart(raw, find, at, i);
      ApartCountsTwice(raw, find, at, i);
    }
  }

  /** Without self-overlap the count is honest, and the rename always hits the target. */
  lemma RenameWithoutOverlapHitsTarget(raw: seq<Byte>, padl: seq<Byte>, name: seq<Byte>, padr: seq<Byte>,
                                       renamed: seq<Byte>, target: nat)
    requires Renames(name, renamed) && Count(raw, padl + name + padr) == 1
    requires |padl| <= target && OccursAt(raw, padl + name + padr, target - |padl|)
    requires NoSelfOverlap(padl + name + padr)
    ensures target < |raw|
    ensures Replace(raw, padl + name + padr, padl + renamed + padr) == raw[target := LETTER_X]
  {
    CountedOnceIsFirst(raw, padl + name + padr, target - |padl|);
    RenameHitsTargetIff(raw, padl, name, padr, renamed, target);
  }
}
