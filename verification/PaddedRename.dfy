/** Rename patches built from the pads that the search finds: from the listing to the patched table. */
module PaddedRename {
  import opened Options
  import opened Sequences
  import opened ByteSearch
  import opened HexListing
  import opened UniquePad
  import opened PadTheorems
  import opened RenamePatch

  /** `a` bytes before and `b` bytes after the name make up the pad, whose pattern is counted once in the table. */
  ghost predicate PadsWith(raw: seq<Byte>, lb: seq<Byte>, name: seq<Byte>, rb: seq<Byte>, o: Padding, a: nat, b: nat) {
    && name != [] && a <= |lb| && b <= |rb|
    && o == Padded(Digits(lb[|lb| - a..]), Digits(rb[..b]))
    && Count(raw, Span(lb, name, rb, a, b)) == 1
  }

  /** The last `a` bytes are the last `2 * a` digits. */
  lemma LastBytes(bytes: seq<Byte>, a: nat, digits: seq<Nibble>)
    requires a <= |bytes| && digits == Digits(bytes)
    ensures |digits| == 2 * |bytes| && digits[|digits| - 2 * a..] == Digits(bytes[|bytes| - a..])
  {
    DigitsAt(bytes, |bytes| - a);
  }

  lemma FirstBytes(bytes: seq<Byte>, b: nat, digits: seq<Nibble>)
    requires b <= |bytes| && digits == Digits(bytes)
    ensures |digits| == 2 * |bytes| && digits[..2 * b] == Digits(bytes[..b])
  {
    DigitsAt(bytes, b);
  }

  lemma SpanOfPad(check: seq<Nibble> -> Option<bool>, count: seq<Byte> -> nat, lb: seq<Byte>, name: seq<Byte>,
                  rb: seq<Byte>, direction: Direction, o: Padding)
    returns (a: nat, b: nat)
    requires ChecksCount(check, count) && o.Padded?
    requires PadFor(check, direction, Digits(lb), Digits(name), Digits(rb), o)
    ensures a <= |lb| && b <= |rb| && count(Span(lb, name, rb, a, b)) == 1
    ensures o == Padded(Digits(lb[|lb| - a..]), Digits(rb[..b]))
  {
    var left, target, right := Digits(lb), Digits(name), Digits(rb);
    var n: nat :| FirstUnique(check, direction, left, target, right, 0, n) && o == PadAt(direction, left, right, n);
    a, b := TakenLeft(direction, n), TakenRight(direction, n);
    UniqueIsCountOne(check, count, direction, lb, name, rb, left, target, right, n);
    LastBytes(lb, a, left);
    FirstBytes(rb, b, right);
  }

  /** The patched table when the pad takes `a` and `b` bytes. */
  function Patched(raw: seq<Byte>, lb: seq<Byte>, name: seq<Byte>, renamed: seq<Byte>, rb: seq<Byte>, a: nat,
                   b: nat): seq<Byte>
    requires name != [] && a <= |lb| && b <= |rb|
  {
    Replace(raw, Span(lb, name, rb, a, b), Span(lb, renamed, rb, a, b))
  }

  /**
   * A table in which the name stands between `lb` and `rb`: a pad found there gives a patch that changes one byte.
   * It is the name's own byte iff the padded pattern does not occur earlier, so always if it cannot overlap itself.
   */
  lemma FoundPadRenames(raw: seq<Byte>, pre: seq<Byte>, lb: seq<Byte>, name: seq<Byte>, rb: seq<Byte>, post: seq<Byte>,
                        renamed: seq<Byte>, direction: Direction, o: Padding)
    returns (a: nat, b: nat, at: nat)
    requires raw == pre + lb + name + rb + post && Renames(name, renamed) && o.Padded?
    requires PadFor(OnceIn(raw), direction, Digits(lb), Digits(name), Digits(rb), o)
    ensures PadsWith(raw, lb, name, rb, o, a, b)
    ensures at < |raw| && raw[at] == UNDERSCORE && Patched(raw, lb, name, renamed, rb, a, b) == raw[at := LETTER_X]
    ensures at == |pre| + |lb| <==>
      forall k :: 0 <= k < |pre| + |lb| - a ==> !OccursAt(raw, Span(lb, name, rb, a, b), k)
    ensures NoSelfOverlap(Span(lb, name, rb, a, b)) ==> at == |pre| + |lb|
  {
    TableChecksCount(raw);
    a, b := SpanOfPad(OnceIn(raw), CountIn(raw), lb, name, rb, direction, o);
    CountInIs(raw, Span(lb, name, rb, a, b));
    at := PatchChanges(raw, pre, lb, name, rb, post, renamed, a, b);
  }

  lemma PatchChanges(raw: seq<Byte>, pre: seq<Byte>, lb: seq<Byte>, name: seq<Byte>, rb: seq<Byte>, post: seq<Byte>,
                     renamed: seq<Byte>, a: nat, b: nat)
    returns (at: nat)
    requires raw == pre + lb + name + rb + post && Renames(name, renamed) && a <= |lb| && b <= |rb|
    requires Count(raw, Span(lb, name, rb, a, b)) == 1
    ensures at < |raw| && raw[at] == UNDERSCORE && Patched(raw, lb, name, renamed, rb, a, b) == raw[at := LETTER_X]
    ensures at == |pre| + |lb| <==>
      forall k :: 0 <= k < |pre| + |lb| - a ==> !OccursAt(raw, Span(lb, name, rb, a, b), k)
    ensures NoSelfOverlap(Span(lb, name, rb, a, b)) ==> at == |pre| + |lb|
  {
    hide CountFrom, FindFrom, OccursAt;
    var find, k := Span(lb, name, rb, a, b), |pre| + |lb| - a;
    SpanOccurs(raw, pre, lb, name, rb, post, a, b);
    var first := RenameChangesOneByte(raw, lb[|lb| - a..], name, rb[..b], renamed);
    at := first + a;
    if NoSelfOverlap(find) { CountedOnceIsFirst(raw, find, k); }
    FirstIsAt(raw, find, first, k);
  }

  /** The first occurrence is at `k` iff there is none before. */
  lemma FirstIsAt(raw: seq<Byte>, find: seq<Byte>, first: nat, k: nat)
    requires OccursAt(raw, find, first) && OccursAt(raw, find, k)
    requires forall i :: 0 <= i < first ==> !OccursAt(raw, find, i)
    ensures first == k <==> forall i :: 0 <= i < k ==> !OccursAt(raw, find, i)
  {
    if first != k { assert first < k && OccursAt(raw, find, first); }
  }

  /** The name is located in the listing at a whole byte, in a block that starts at `index`. */
  ghost predicate Located(lines: seq<Line>, name: seq<Byte>, index: nat, instance: nat, location: Location, k: nat)
  {
    && index < |lines| && lines[index].Hex? && (index > 0 ==> lines[index - 1].Text?) && k % 2 == 0
    && TargetAt(lines, Digits(name), index, instance, Cap(lines, Digits(name), index), location, k)
  }

  /** The listing shows the part `all` of the table, and the name in it. */
  ghost predicate NameShown(lines: seq<Line>, raw: seq<Byte>, pre: seq<Byte>, all: seq<Byte>, post: seq<Byte>,
                            name: seq<Byte>, index: nat, instance: nat, location: Location, k: nat)
  {
    && Listing(lines) && DigitsIn(lines, 0, |lines|) == Digits(all) && raw == pre + all + post && index < |lines|
    && Located(lines, name, index, instance, location, k)
  }

  /** A direction whose pad was chosen. */
  function Chosen(l: Padding, r: Padding, o: Padding): Direction {
    if o == l then Backward else if o == r then Forward else Both
  }

  lemma BestIsPad(lines: seq<Line>, check: seq<Nibble> -> Option<bool>, target: seq<Nibble>, index: nat, instance: nat,
                  l: Padding, r: Padding, m: Padding, o: Padding)
    requires IsPadFor(lines, check, target, index, Backward, instance, l)
    requires IsPadFor(lines, check, target, index, Forward, instance, r)
    requires IsPadFor(lines, check, target, index, Both, instance, m)
    requires IsShortest(l, r, m, o)
    ensures IsPadFor(lines, check, target, index, Chosen(l, r, o), instance, o)
  { }

  /**
   * The shortest of the three pads, if any is found, patches exactly one byte of the table. `lb` is what the listing
   * shows before the located name, so `|pre| + |lb|` is the name's own place: that byte is hit iff the padded pattern
   * does not occur earlier, so always if it cannot overlap itself.
   */
  lemma ShortestPadRenames(lines: seq<Line>, raw: seq<Byte>, pre: seq<Byte>, all: seq<Byte>, post: seq<Byte>,
                           name: seq<Byte>, renamed: seq<Byte>, index: nat, instance: nat, location: Location, k: nat,
                           l: Padding, r: Padding, m: Padding, o: Padding)
    returns (lb: seq<Byte>, rb: seq<Byte>, a: nat, b: nat, at: nat)
    requires Renames(name, renamed) && NameShown(lines, raw, pre, all, post, name, index, instance, location, k)
    requires IsPad(lines, raw, Digits(name), index, Backward, instance, l)
    requires IsPad(lines, raw, Digits(name), index, Forward, instance, r)
    requires IsPad(lines, raw, Digits(name), index, Both, instance, m)
    requires IsShortest(l, r, m, o) && o.Padded?
    ensures all == lb + name + rb && 2 * |lb| == |DigitsIn(lines, 0, index)| + k
    ensures PadsWith(raw, lb, name, rb, o, a, b) && NoLonger(o, l) && NoLonger(o, r) && NoLonger(o, m)
    ensures at < |raw| && raw[at] == UNDERSCORE && Patched(raw, lb, name, renamed, rb, a, b) == raw[at := LETTER_X]
    ensures at == |pre| + |lb| <==>
      forall i :: 0 <= i < |pre| + |lb| - a ==> !OccursAt(raw, Span(lb, name, rb, a, b), i)
    ensures NoSelfOverlap(Span(lb, name, rb, a, b)) ==> at == |pre| + |lb|
  {
    var direction := Chosen(l, r, o);
    BestIsPad(lines, OnceIn(raw), Digits(name), index, instance, l, r, m, o);
    lb, rb, a, b, at := FoundInListing(lines, raw, pre, all, post, name, renamed, index, instance, location, k,
      direction, o);
  }

  lemma SearchWithin(lines: seq<Line>, check: seq<Nibble> -> Option<bool>, count: seq<Byte> -> nat, all: seq<Byte>,
                     name: seq<Byte>, index: nat, instance: nat, location: Location, k: nat,
                     direction: Direction, o: Padding)
    returns (lb: seq<Byte>, rb: seq<Byte>)
    requires ChecksCount(check, count) && SpansFallWithin(count, all, name)
    requires Listing(lines) && DigitsIn(lines, 0, |lines|) == Digits(all)
    requires Located(lines, name, index, instance, location, k)
    requires IsPadFor(lines, check, Digits(name), index, direction, instance, o)
    ensures all == lb + name + rb && 2 * |lb| == |DigitsIn(lines, 0, index)| + k
    ensures PadFor(check, direction, Digits(lb), Digits(name), Digits(rb), o)
  {
    var line;
    line, lb, rb := ListingSearchIsExact(lines, check, count, all, name, index, direction, instance,
                                         Cap(lines, Digits(name), index), location, k, o);
    assert |Digits(lb)| == |DigitsIn(lines, 0, index)| + k;
  }

  lemma FoundInListing(lines: seq<Line>, raw: seq<Byte>, pre: seq<Byte>, all: seq<Byte>, post: seq<Byte>,
                       name: seq<Byte>, renamed: seq<Byte>, index: nat, instance: nat, location: Location, k: nat,
                       direction: Direction, o: Padding)
    returns (lb: seq<Byte>, rb: seq<Byte>, a: nat, b: nat, at: nat)
    requires Renames(name, renamed) && NameShown(lines, raw, pre, all, post, name, index, instance, location, k)
    requires IsPad(lines, raw, Digits(name), index, direction, instance, o) && o.Padded?
    ensures all == lb + name + rb && 2 * |lb| == |DigitsIn(lines, 0, index)| + k
    ensures PadsWith(raw, lb, name, rb, o, a, b)
    ensures at < |raw| && raw[at] == UNDERSCORE && Patched(raw, lb, name, renamed, rb, a, b) == raw[at := LETTER_X]
    ensures at == |pre| + |lb| <==>
      forall i :: 0 <= i < |pre| + |lb| - a ==> !OccursAt(raw, Span(lb, name, rb, a, b), i)
    ensures NoSelfOverlap(Span(lb, name, rb, a, b)) ==> at == |pre| + |lb|
  {
    TableChecksCount(raw);
    TableSpansFallWithin(raw, pre, all, post, name);
    lb, rb := SearchWithin(lines, OnceIn(raw), CountIn(raw), all, name, index, instance, location, k, direction, o);
    SplitRaw(raw, pre, all, post, lb, name, rb);
    a, b, at := FoundPadRenames(raw, pre, lb, name, rb, post, renamed, direction, o);
  }
}
