/** The pad search on a whole listing, and the rename patches built from its result. */
module PadTheorems {
  import opened Options
  import opened ByteSearch
  import opened HexListing
  import opened UniquePad

  // ------------------------------------------------------------------ the target among the listing's bytes

  lemma DigitsInjective(a: seq<Byte>, b: seq<Byte>)
    requires Digits(a) == Digits(b)
    ensures a == b
  {
    UnhexDigits(a);
    UnhexDigits(b);
  }

  lemma MiddlePart<T>(a: seq<T>, m: seq<T>, t: seq<T>, c: seq<T>, all: seq<T>)
    requires all == a + t + c && |m| == |t| && all[..|a| + |t|] == a + m
    ensures m == t
  {
    assert all[..|a| + |t|] == a + t;
    assert (a + m)[|a|..] == m && (a + t)[|a|..] == t;
  }

  /** Digits of whole bytes split at whole bytes. */
  lemma DigitsParts(all: seq<Byte>, left: seq<Nibble>, tb: seq<Byte>, right: seq<Nibble>)
      returns (lb: seq<Byte>, rb: seq<Byte>)
    requires Digits(all) == left + Digits(tb) + right && |left| % 2 == 0
    ensures all == lb + tb + rb && Digits(lb) == left && Digits(rb) == right
  {
    hide Digits;
    var n := |left| / 2;
    assert |Digits(all)| == |left| + 2 * |tb| + |right|;
    lb, rb := all[..n], all[n + |tb|..];
    DigitsAt(all, n);
    DigitsAt(all, n + |tb|);
    assert Digits(all)[..2 * n] == left;
    assert Digits(all)[2 * (n + |tb|)..] == right;
    var mid := all[n..n + |tb|];
    assert all[..n + |tb|] == lb + mid;
    DigitsConcat(lb, mid);
    MiddlePart(left, Digits(mid), Digits(tb), right, Digits(all));
    DigitsInjective(mid, tb);
  }

  lemma LocationIsUnique(lines: seq<Line>, index: nat, target: seq<Nibble>, cap: nat, a: Location, b: Location)
    requires IsLocation(lines, index, target, cap, a) && IsLocation(lines, index, target, cap, b)
    ensures a == b
  {
    if a.Loaded? && b.Loaded? {
      assert StopsAt(lines, index, target, cap, a.last) && StopsAt(lines, index, target, cap, b.last);
    }
  }

  lemma StartsBlock(lines: seq<Line>, index: nat)
    requires index < |lines| && lines[index].Hex? && (index > 0 ==> lines[index - 1].Text?)
    ensures RunStart(lines, index + 1) == index
  {
    assert RunStart(lines, index) == index;
  }

  /** The target is found at digit `k` of the line loaded from the block at `index`. */
  ghost predicate TargetAt(lines: seq<Line>, target: seq<Nibble>, index: nat, instance: nat, cap: nat,
                           location: Location, k: nat) {
    && target != [] && index < |lines| && lines[index].Hex?
    && IsLocation(lines, index, target, cap, location)
    && location.Loaded? && Occurrence(location.line, target, 0, instance) == Some(k)
  }

  lemma TargetShape(lines: seq<Line>, target: seq<Nibble>, index: nat, instance: nat, cap: nat, location: Location,
                    k: nat)
    requires TargetAt(lines, target, index, instance, cap, location, k)
    ensures target != [] && index < |lines| && lines[index].Hex? && location.Loaded?
    ensures index <= location.last < |lines| && location.line == DigitsIn(lines, index, location.last + 1)
    ensures k + |target| <= |location.line| && location.line[k..k + |target|] == target
  {
    assert StopsAt(lines, index, target, cap, location.last);
  }

  lemma PadWithin(lines: seq<Line>, check: seq<Nibble> -> Option<bool>, target: seq<Nibble>, index: nat,
                  direction: Direction, instance: nat, cap: nat, location: Location, o: Padding)
    requires IsPadWithin(lines, check, target, index, direction, instance, cap, o)
    requires IsLocation(lines, index, target, cap, location)
    ensures IsPadFrom(lines, check, target, index, direction, instance, location, o)
  {
    var found :| IsLocation(lines, index, target, cap, found)
                 && IsPadFrom(lines, check, target, index, direction, instance, found, o);
    LocationIsUnique(lines, index, target, cap, found, location);
  }

  /** The specification of the whole search determines its result. */
  lemma PadIsUnique(lines: seq<Line>, check: seq<Nibble> -> Option<bool>, target: seq<Nibble>, index: nat,
                    direction: Direction, instance: nat, o: Padding, p: Padding)
    requires IsPadFor(lines, check, target, index, direction, instance, o)
    requires IsPadFor(lines, check, target, index, direction, instance, p)
    ensures o == p
  {
    if index < |lines| && lines[index].Hex? {
      var cap := Cap(lines, target, index);
      var location :| IsLocation(lines, index, target, cap, location)
                      && IsPadFrom(lines, check, target, index, direction, instance, location, o);
      PadWithin(lines, check, target, index, direction, instance, cap, location, p);
      PadFromIsUnique(lines, check, target, index, direction, instance, location, o, p);
    }
  }

  lemma PadFromIsUnique(lines: seq<Line>, check: seq<Nibble> -> Option<bool>, target: seq<Nibble>, index: nat,
                        direction: Direction, instance: nat, location: Location, o: Padding, p: Padding)
    requires IsPadFrom(lines, check, target, index, direction, instance, location, o)
    requires IsPadFrom(lines, check, target, index, direction, instance, location, p)
    ensures o == p
  {
    if index < |lines| && location.Loaded? && location.last < |lines| && target != [] {
      var k := Occurrence(location.line, target, 0, instance);
      if k.Some? {
        PadIsDetermined(check, direction, LeftDigits(lines, index, location.line[..k.value]), target,
                        RightDigits(lines, location.last, location.line[k.value + |target|..]), o, p);
      }
    }
  }

  /** A pad found between the digits around the located target is what the whole search returns. */
  lemma SearchAtLocation(lines: seq<Line>, check: seq<Nibble> -> Option<bool>, target: seq<Nibble>, index: nat,
                         direction: Direction, instance: nat, location: Location, k: nat, o: Padding)
    requires index < |lines| && TargetAt(lines, target, index, instance, Cap(lines, target, index), location, k)
    requires location.last < |lines| && k + |target| <= |location.line|
    requires PadFor(check, direction, LeftDigits(lines, index, location.line[..k]), target,
                    RightDigits(lines, location.last, location.line[k + |target|..]), o)
    ensures IsPadFor(lines, check, target, index, direction, instance, o)
  {
    hide PadFor, LeftDigits, RightDigits;
    assert IsPadAround(lines, check, target, index, direction, location, Some(k), o);
    assert IsPadFrom(lines, check, target, index, direction, instance, location, o);
  }

  /** What the specification of the search says once the target is located. */
  lemma PadAtLocation(lines: seq<Line>, check: seq<Nibble> -> Option<bool>, target: seq<Nibble>, index: nat,
                      direction: Direction, instance: nat, cap: nat, location: Location, k: nat, o: Padding)
      returns (line: seq<Nibble>, last: nat)
    requires TargetAt(lines, target, index, instance, cap, location, k)
    requires IsPadWithin(lines, check, target, index, direction, instance, cap, o)
    ensures index <= last < |lines| && lines[index].Hex? && line == DigitsIn(lines, index, last + 1)
    ensures k + |target| <= |line| && line[k..k + |target|] == target
    ensures PadFor(check, direction, LeftDigits(lines, index, line[..k]), target,
                   RightDigits(lines, last, line[k + |target|..]), o)
  {
    TargetShape(lines, target, index, instance, cap, location, k);
    PadWithin(lines, check, target, index, direction, instance, cap, location, o);
    line, last := location.line, location.last;
    PadAroundIs(lines, check, target, index, direction, instance, location, k, o);
  }

  lemma PadAroundIs(lines: seq<Line>, check: seq<Nibble> -> Option<bool>, target: seq<Nibble>, index: nat,
                    direction: Direction, instance: nat, location: Location, k: nat, o: Padding)
    requires target != [] && index < |lines| && location.Loaded? && location.last < |lines| &&
      k + |target| <= |location.line|
    requires Occurrence(location.line, target, 0, instance) == Some(k)
    requires IsPadFrom(lines, check, target, index, direction, instance, location, o)
    ensures PadFor(check, direction, LeftDigits(lines, index, location.line[..k]), target,
                   RightDigits(lines, location.last, location.line[k + |target|..]), o)
  {
    assert IsPadAround(lines, check, target, index, direction, location, Some(k), o);
  }

  // ------------------------------------------------------------------ the sides of the target

  lemma EvenParts(x: nat, k: nat, n: nat)
    requires k + n <= x && x % 2 == 0 && k % 2 == 0 && n % 2 == 0
    ensures (x - k - n) % 2 == 0
  { }

  lemma LeftIsAllBefore(lines: seq<Line>, index: nat, rest: seq<Nibble>)
    requires index < |lines| && lines[index].Hex? && (index > 0 ==> lines[index - 1].Text?) && |rest| % 2 == 0
    ensures LeftDigits(lines, index, rest) == DigitsIn(lines, 0, index) + rest
  {
    StartsBlock(lines, index);
  }

  lemma Rejoin<T>(before: seq<T>, line: seq<T>, after: seq<T>, k: nat, n: nat)
    requires k + n <= |line|
    ensures before + (line + after) == (before + line[..k]) + line[k..k + n] + (line[k + n..] + after)
  {
    assert line == line[..k] + line[k..k + n] + line[k + n..];
  }

  lemma ListingDigits(lines: seq<Line>, index: nat, last: nat)
    requires index <= last < |lines|
    ensures DigitsIn(lines, 0, |lines|)
            == DigitsIn(lines, 0, index) + (DigitsIn(lines, index, last + 1) + DigitsIn(lines, last + 1, |lines|))
  {
    DigitsSplit(lines, 0, index, |lines|);
    DigitsSplit(lines, index, last + 1, |lines|);
  }

  lemma LinePartsAreEven(lines: seq<Line>, index: nat, last: nat, line: seq<Nibble>, k: nat, n: nat)
    requires Listing(lines) && index <= last < |lines|
    requires line == DigitsIn(lines, index, last + 1)
    requires k + n <= |line| && k % 2 == 0 && n % 2 == 0
    ensures |line[..k]| % 2 == 0 && |line[k + n..]| % 2 == 0
    ensures |DigitsIn(lines, 0, index) + line[..k]| % 2 == 0
  {
    DigitsAreEven(lines, index, last + 1);
    EvenParts(|line|, k, n);
    DigitsAreEven(lines, 0, index);
    EvenSum(|DigitsIn(lines, 0, index)|, k);
  }

  /** Cut at the target, the digits on both sides are those of all lines before and after it. */
  lemma SidesAreWhole(lines: seq<Line>, index: nat, last: nat, left: seq<Nibble>, right: seq<Nibble>)
    requires index <= last < |lines| && lines[index].Hex? && (index > 0 ==> lines[index - 1].Text?)
    requires |left| % 2 == 0 && |right| % 2 == 0
    ensures LeftDigits(lines, index, left) == DigitsIn(lines, 0, index) + left
    ensures RightDigits(lines, last, right) == right + DigitsIn(lines, last + 1, |lines|)
  {
    LeftIsAllBefore(lines, index, left);
  }

  lemma BytesAreEven(tb: seq<Byte>)
    ensures |Digits(tb)| % 2 == 0
  { }

  lemma EvenSum(a: nat, k: nat)
    requires a % 2 == 0 && k % 2 == 0
    ensures (a + k) % 2 == 0
  { }

  /** The parts around the target, as bytes. */
  lemma PartsAround(all: seq<Byte>, tb: seq<Byte>, before: seq<Nibble>, line: seq<Nibble>, after: seq<Nibble>, k: nat,
                    target: seq<Nibble>)
      returns (lb: seq<Byte>, rb: seq<Byte>)
    requires Digits(all) == before + (line + after) && target == Digits(tb)
    requires k + |target| <= |line| && line[k..k + |target|] == target && |before + line[..k]| % 2 == 0
    ensures all == lb + tb + rb
    ensures Digits(lb) == before + line[..k] && Digits(rb) == line[k + |target|..] + after
  {
    Rejoin(before, line, after, k, |target|);
    lb, rb := DigitsParts(all, before + line[..k], tb, line[k + |target|..] + after);
  }

  lemma SplitRaw<T>(raw: seq<T>, pre: seq<T>, all: seq<T>, post: seq<T>, lb: seq<T>, tb: seq<T>, rb: seq<T>)
    requires raw == pre + all + post && all == lb + tb + rb
    ensures raw == pre + lb + tb + rb + post
  { }

  /** Wherever the target is cut out of the shown bytes, wider spans around it are counted no more often. */
  ghost predicate SpansFallWithin(count: seq<Byte> -> nat, all: seq<Byte>, tb: seq<Byte>) {
    forall lb: seq<Byte>, rb: seq<Byte> {:trigger SpansFall(count, lb, tb, rb)} :: all == lb + tb + rb ==>
      SpansFall(count, lb, tb, rb)
  }

  lemma TableSpansFallWithin(raw: seq<Byte>, pre: seq<Byte>, all: seq<Byte>, post: seq<Byte>, tb: seq<Byte>)
    requires tb != [] && raw == pre + all + post
    ensures SpansFallWithin(CountIn(raw), all, tb)
  {
    forall lb: seq<Byte>, rb: seq<Byte> | all == lb + tb + rb ensures SpansFall(CountIn(raw), lb, tb, rb) {
      SplitRaw(raw, pre, all, post, lb, tb, rb);
      TableSpansFall(raw, pre, lb, tb, rb, post);
    }
  }

  lemma SidesAround(lines: seq<Line>, all: seq<Byte>, tb: seq<Byte>, target: seq<Nibble>, index: nat,
                    line: seq<Nibble>, last: nat, k: nat)
      returns (lb: seq<Byte>, rb: seq<Byte>)
    requires Listing(lines) && DigitsIn(lines, 0, |lines|) == Digits(all) && target == Digits(tb) && |target| % 2 == 0
    requires index <= last < |lines| && lines[index].Hex? && (index > 0 ==> lines[index - 1].Text?)
    requires line == DigitsIn(lines, index, last + 1)
    requires k % 2 == 0 && k + |target| <= |line| && line[k..k + |target|] == target
    ensures all == lb + tb + rb && Digits(lb) == DigitsIn(lines, 0, index) + line[..k]
    ensures LeftDigits(lines, index, line[..k]) == Digits(lb)
    ensures RightDigits(lines, last, line[k + |target|..]) == Digits(rb)
  {
    LinePartsAreEven(lines, index, last, line, k, |target|);
    SidesAreWhole(lines, index, last, line[..k], line[k + |target|..]);
    ListingDigits(lines, index, last);
    lb, rb := PartsAround(all, tb, DigitsIn(lines, 0, index), line, DigitsIn(lines, last + 1, |lines|), k, target);
  }

  /**
   * The search on a listing, for any test of a pattern that asks whether its count is one. `index` starts a block
   * and the target is found at a whole byte. Then a pad is found iff widening to the edge of the listing gives a
   * pattern counted once, and it is the first widening in the order of the direction that does.
   */
  lemma ListingSearchIsExact(lines: seq<Line>, check: seq<Nibble> -> Option<bool>, count: seq<Byte> -> nat,
                             all: seq<Byte>, tb: seq<Byte>,
                             index: nat, direction: Direction, instance: nat, cap: nat, location: Location, k: nat,
                             o: Padding)
      returns (line: seq<Nibble>, lb: seq<Byte>, rb: seq<Byte>)
    requires ChecksCount(check, count) && SpansFallWithin(count, all, tb)
    requires Listing(lines) && DigitsIn(lines, 0, |lines|) == Digits(all)
    requires TargetAt(lines, Digits(tb), index, instance, cap, location, k) && k % 2 == 0
    requires index > 0 ==> index < |lines| && lines[index - 1].Text?
    requires IsPadWithin(lines, check, Digits(tb), index, direction, instance, cap, o)
    ensures index < |lines| && k <= |line|
    ensures all == lb + tb + rb && Digits(lb) == DigitsIn(lines, 0, index) + line[..k]
    ensures PadFor(check, direction, Digits(lb), Digits(tb), Digits(rb), o)
    ensures o.Padded? <==> UniqueAtEdge(count, direction, lb, tb, rb)
  {
    var last;
    var target := Digits(tb);
    line, last := PadAtLocation(lines, check, target, index, direction, instance, cap, location, k, o);
    BytesAreEven(tb);
    lb, rb := SidesAround(lines, all, tb, target, index, line, last, k);
    PadExistsIff(check, count, direction, lb, tb, rb, o);
  }
}
