/**
 * The search for a unique byte pattern: `get_unique_pad` widens a pattern one byte at a time, left, right or both
 * ways, until the raw table contains it once.
 */
module UniquePad {
  import opened Options
  import opened Sequences
  import opened ByteSearch
  import opened HexListing

  datatype Direction = Forward | Backward | Both

  datatype Padding = Raised | Padded(left: seq<Nibble>, right: seq<Nibble>)

  // ------------------------------------------------------------------ locating the target

  /** Blocks are loaded until the target occurs in the line or the line has `cap` digits, or the file ends. */
  datatype Location = EndOfFile | Loaded(line: seq<Nibble>, last: nat)

  /** The last line of a block. */
  predicate EndsBlock(lines: seq<Line>, e: nat) {
    e < |lines| && lines[e].Hex? && (e + 1 < |lines| ==> lines[e + 1].Text?)
  }

  predicate Enough(line: seq<Nibble>, target: seq<Nibble>, cap: nat) {
    FindFrom(line, target, 0).Some? || |line| >= cap
  }

  ghost predicate Contains(line: seq<Nibble>, target: seq<Nibble>) { exists k: nat :: OccursAt(line, target, k) }

  lemma EnoughIff(line: seq<Nibble>, target: seq<Nibble>, cap: nat)
    ensures Enough(line, target, cap) <==> Contains(line, target) || |line| >= cap
  {
    FindFromIsFirst(line, target, 0);
  }

  /** Loading from `index` through line `e` stops there. */
  ghost predicate StopsAt(lines: seq<Line>, index: nat, target: seq<Nibble>, cap: nat, e: nat) {
    index <= e < |lines| && EndsBlock(lines, e) &&
    (Contains(DigitsIn(lines, index, e + 1), target) || |DigitsIn(lines, index, e + 1)| >= cap)
  }

  ghost predicate IsLocation(lines: seq<Line>, index: nat, target: seq<Nibble>, cap: nat, location: Location) {
    match location
    case EndOfFile => forall e: nat {:trigger StopsAt(lines, index, target, cap, e)} ::
      !StopsAt(lines, index, target, cap, e)
    case Loaded(line, last) =>
      && StopsAt(lines, index, target, cap, last) && line == DigitsIn(lines, index, last + 1)
      && forall e: nat {:trigger StopsAt(lines, index, target, cap, e)} :: e < last ==>
        !StopsAt(lines, index, target, cap, e)
  }

  /** Where the `instance`-th piece of a split at `target` ends. */
  function Occurrence(digits: seq<Nibble>, target: seq<Nibble>, i: nat, instance: nat): (r: Option<nat>)
    requires target != []
    ensures r.Some? ==> r.value + |target| <= |digits| && digits[r.value..r.value + |target|] == target
    decreases instance
  {
    FindFromIsFirst(digits, target, i);
    match FindFrom(digits, target, i)
    case None => None
    case Some(k) => if instance == 0 then Some(k) else Occurrence(digits, target, k + |target|, instance - 1)
  }

  /** The first occurrence at or after `from` is at `k`. */
  ghost predicate NextAt(digits: seq<Nibble>, target: seq<Nibble>, from: nat, k: nat) {
    from <= k && OccursAt(digits, target, k) && forall m :: from <= m < k ==> !OccursAt(digits, target, m)
  }

  /** Occurrences of the target from `i` on, each the next at or after the end of the one before. */
  ghost predicate CutPoints(digits: seq<Nibble>, target: seq<Nibble>, i: nat, p: seq<nat>)
    decreases |p|
  {
    p == [] || (NextAt(digits, target, i, p[0]) && CutPoints(digits, target, p[0] + |target|, p[1..]))
  }

  ghost predicate IsCut(digits: seq<Nibble>, target: seq<Nibble>, i: nat, instance: nat, k: nat, p: seq<nat>) {
    |p| == instance + 1 && CutPoints(digits, target, i, p) && p[instance] == k
  }

  lemma NextAtIff(digits: seq<Nibble>, target: seq<Nibble>, i: nat, k: nat)
    ensures NextAt(digits, target, i, k) <==> FindFrom(digits, target, i) == Some(k)
  {
    FindFromIsFirst(digits, target, i);
    var r := FindFrom(digits, target, i);
    if NextAt(digits, target, i, k) {
      assert OccursAt(digits, target, k);
      assert r.Some?;
      assert OccursAt(digits, target, r.value);
      assert r.value == k;
    }
    if r == Some(k) { assert NextAt(digits, target, i, k); }
  }

  lemma {:induction false} OccurrenceCuts(digits: seq<Nibble>, target: seq<Nibble>, i: nat, instance: nat, k: nat)
    returns (p: seq<nat>)
    requires target != [] && Occurrence(digits, target, i, instance) == Some(k)
    ensures IsCut(digits, target, i, instance, k, p)
    decreases instance
  {
    hide NextAt, FindFrom;
    var first := FindFrom(digits, target, i).value;
    NextAtIff(digits, target, i, first);
    if instance == 0 {
      p := [first];
      assert p[1..] == [] && CutPoints(digits, target, first + |target|, []);
    } else {
      var rest := OccurrenceCuts(digits, target, first + |target|, instance - 1, k);
      p := [first] + rest;
      assert p[0] == first && p[1..] == rest && p[instance] == rest[instance - 1];
    }
  }

  lemma {:induction false} CutsOccurrence(digits: seq<Nibble>, target: seq<Nibble>, i: nat, instance: nat, k: nat,
                                          p: seq<nat>)
    requires target != [] && IsCut(digits, target, i, instance, k, p)
    ensures Occurrence(digits, target, i, instance) == Some(k)
    decreases instance
  {
    hide NextAt, FindFrom;
    NextAtIff(digits, target, i, p[0]);
    if instance > 0 { CutsOccurrence(digits, target, p[0] + |target|, instance - 1, k, p[1..]); }
  }

  /** The pieces between occurrences are those of a split: the `instance`-th ends where that many have gone before. */
  lemma OccurrenceIff(digits: seq<Nibble>, target: seq<Nibble>, i: nat, instance: nat, k: nat)
    requires target != []
    ensures Occurrence(digits, target, i, instance) == Some(k) <==> exists p :: IsCut(digits, target, i, instance, k, p)
  {
    if Occurrence(digits, target, i, instance) == Some(k) {
      var p := OccurrenceCuts(digits, target, i, instance, k);
    }
    if p :| IsCut(digits, target, i, instance, k, p) { CutsOccurrence(digits, target, i, instance, k, p); }
  }

  /** The digits that can be taken to the right. A half byte left over in the block stops the search at its end. */
  function RightDigits(lines: seq<Line>, last: nat, rest: seq<Nibble>): seq<Nibble>
    requires last < |lines|
  {
    if |rest| % 2 == 0 then rest + DigitsIn(lines, last + 1, |lines|) else rest
  }

  function LeftDigits(lines: seq<Line>, first: nat, rest: seq<Nibble>): seq<Nibble>
    requires first < |lines|
  {
    if |rest| % 2 == 0 then DigitsIn(lines, 0, RunStart(lines, first + 1)) + rest else rest
  }

  // ------------------------------------------------------------------ the uniqueness test

  function CountIn(raw: seq<Byte>): seq<Byte> -> nat {
    pattern => if pattern == [] then |raw| + 1 else Count(raw, pattern)
  }

  lemma CountInIs(raw: seq<Byte>, pattern: seq<Byte>)
    requires pattern != []
    ensures CountIn(raw)(pattern) == Count(raw, pattern)
  { }

  /** Whether the bytes occur exactly once; None when the digits are not whole bytes, where the source raises. */
  function OnceIn(raw: seq<Byte>): seq<Nibble> -> Option<bool> {
    digits =>
      match Unhex(digits)
      case None => None
      case Some(pattern) => Some(CountIn(raw)(pattern) == 1)
  }

  // ------------------------------------------------------------------ what the loop finds

  /** After `k` turns: how many bytes were taken on the left and on the right. */
  function TakenLeft(direction: Direction, k: nat): nat {
    match direction case Forward => 0 case Backward => k case Both => k / 2
  }

  function TakenRight(direction: Direction, k: nat): nat {
    match direction case Forward => k case Backward => 0 case Both => (k + 1) / 2
  }

  predicate Available(direction: Direction, left: seq<Nibble>, right: seq<Nibble>, k: nat) {
    2 * TakenLeft(direction, k) <= |left| && 2 * TakenRight(direction, k) <= |right|
  }

  function PadAt(direction: Direction, left: seq<Nibble>, right: seq<Nibble>, k: nat): Padding
    requires Available(direction, left, right, k)
  {
    Padded(left[|left| - 2 * TakenLeft(direction, k)..], right[..2 * TakenRight(direction, k)])
  }

  /** The number of turns until a side that is needed has no bytes left. */
  function LastTurn(direction: Direction, left: seq<Nibble>, right: seq<Nibble>): (k: nat)
    requires |left| % 2 == 0 && |right| % 2 == 0
    ensures Available(direction, left, right, k) && !Available(direction, left, right, k + 1)
  {
    match direction
    case Forward => |right| / 2
    case Backward => |left| / 2
    case Both => if |left| < |right| then |left| + 1 else |right|
  }

  lemma AvailableBelow(direction: Direction, left: seq<Nibble>, right: seq<Nibble>, j: nat, k: nat)
    requires Available(direction, left, right, k) && j <= k
    ensures Available(direction, left, right, j)
  { }

  function Widened(direction: Direction, left: seq<Nibble>, target: seq<Nibble>, right: seq<Nibble>,
                   k: nat): seq<Nibble>
    requires Available(direction, left, right, k)
  {
    PadAt(direction, left, right, k).left + target + PadAt(direction, left, right, k).right
  }

  ghost predicate UniqueAt(check: seq<Nibble> -> Option<bool>, direction: Direction,
                           left: seq<Nibble>, target: seq<Nibble>, right: seq<Nibble>, k: nat)
    requires Available(direction, left, right, k)
  {
    check(Widened(direction, left, target, right, k)) == Some(true)
  }

  ghost predicate NotUniqueBelow(check: seq<Nibble> -> Option<bool>, direction: Direction,
                                 left: seq<Nibble>, target: seq<Nibble>, right: seq<Nibble>, k: nat, n: nat) {
    forall j: nat {:trigger Available(direction, left, right, j)} ::
      k <= j < n && Available(direction, left, right, j) ==> !UniqueAt(check, direction, left, target, right, j)
  }

  /** Turn `n` is the first from `k` on whose pattern occurs once. */
  ghost predicate FirstUnique(check: seq<Nibble> -> Option<bool>, direction: Direction,
                              left: seq<Nibble>, target: seq<Nibble>, right: seq<Nibble>, k: nat, n: nat) {
    && k <= n && Available(direction, left, right, n) && UniqueAt(check, direction, left, target, right, n)
    && NotUniqueBelow(check, direction, left, target, right, k, n)
  }

  ghost predicate NeverUnique(check: seq<Nibble> -> Option<bool>, direction: Direction,
                              left: seq<Nibble>, target: seq<Nibble>, right: seq<Nibble>) {
    forall n: nat {:trigger Available(direction, left, right, n)} ::
      Available(direction, left, right, n) ==> !UniqueAt(check, direction, left, target, right, n)
  }

  /** The pad at the first turn whose pattern is unique, or Raised when there is no such turn. */
  ghost predicate PadFor(check: seq<Nibble> -> Option<bool>, direction: Direction,
                         left: seq<Nibble>, target: seq<Nibble>, right: seq<Nibble>, o: Padding) {
    if o.Padded? then
      exists n: nat :: FirstUnique(check, direction, left, target, right, 0, n) && o == PadAt(direction, left, right, n)
    else NeverUnique(check, direction, left, target, right)
  }

  /** What `get_unique_pad` returns, or that it raises. */
  ghost predicate IsPad(lines: seq<Line>, raw: seq<Byte>, target: seq<Nibble>, index: nat, direction: Direction,
                        instance: nat, o: Padding) {
    IsPadFor(lines, OnceIn(raw), target, index, direction, instance, o)
  }

  /** How many digits the search loads before it gives up: the first block and as many more as the target has. */
  function Cap(lines: seq<Line>, target: seq<Nibble>, index: nat): nat
    requires index < |lines|
  {
    |DigitsIn(lines, index, RunEnd(lines, index))| + |target|
  }

  ghost predicate IsPadFor(lines: seq<Line>, check: seq<Nibble> -> Option<bool>, target: seq<Nibble>, index: nat,
                           direction: Direction, instance: nat, o: Padding) {
    if index >= |lines| || lines[index].Text? then o.Raised?
    else IsPadWithin(lines, check, target, index, direction, instance, Cap(lines, target, index), o)
  }

  ghost predicate IsPadWithin(lines: seq<Line>, check: seq<Nibble> -> Option<bool>, target: seq<Nibble>, index: nat,
                              direction: Direction, instance: nat, cap: nat, o: Padding) {
    exists location :: IsLocation(lines, index, target, cap, location)
                       && IsPadFrom(lines, check, target, index, direction, instance, location, o)
  }

  /** The part after the target's lines were loaded; splitting at an empty target is an error. */
  ghost predicate IsPadFrom(lines: seq<Line>, check: seq<Nibble> -> Option<bool>, target: seq<Nibble>, index: nat,
                            direction: Direction, instance: nat, location: Location, o: Padding)
  {
    if index >= |lines| || location.EndOfFile? || location.last >= |lines| || target == [] then o.Raised?
    else
      var k := Occurrence(location.line, target, 0, instance);
      IsPadAround(lines, check, target, index, direction, location, k, o)
  }

  ghost predicate IsPadAround(lines: seq<Line>, check: seq<Nibble> -> Option<bool>, target: seq<Nibble>, index: nat,
                              direction: Direction, location: Location, k: Option<nat>, o: Padding)
    requires index < |lines| && location.Loaded? && location.last < |lines|
    requires k.Some? ==> k.value + |target| <= |location.line|
  {
    if k.None? then o.Raised?
    else PadFor(check, direction, LeftDigits(lines, index, location.line[..k.value]), target,
                RightDigits(lines, location.last, location.line[k.value + |target|..]), o)
  }

  /** The specification determines the result. */
  lemma PadIsDetermined(check: seq<Nibble> -> Option<bool>, direction: Direction,
                        left: seq<Nibble>, target: seq<Nibble>, right: seq<Nibble>, o: Padding, p: Padding)
    requires PadFor(check, direction, left, target, right, o) && PadFor(check, direction, left, target, right, p)
    ensures o == p
  {
    if o.Padded? && p.Padded? {
      var m: nat :| FirstUnique(check, direction, left, target, right, 0, m) && o == PadAt(direction, left, right, m);
      var n: nat :| FirstUnique(check, direction, left, target, right, 0, n) && p == PadAt(direction, left, right, n);
      assert m == n;
    }
  }

  function PadLength(p: Padding): nat
    requires p.Padded?
  {
    |p.left| + |p.right|
  }

  /** The pad that is kept while the pads found are looked at in order: a later one only if it is shorter. */
  function Shorter(best: Padding, p: Padding): Padding {
    if p.Padded? && (best.Raised? || PadLength(p) < PadLength(best)) then p else best
  }

  predicate NoLonger(o: Padding, p: Padding) { p.Padded? ==> o.Padded? && PadLength(o) <= PadLength(p) }

  predicate StrictlyShorter(o: Padding, p: Padding) { p.Padded? ==> o.Padded? && PadLength(o) < PadLength(p) }

  /** `o` is the shortest pad found, the earliest of several; Raised only if none was found. */
  predicate IsShortest(l: Padding, r: Padding, m: Padding, o: Padding) {
    && (o.Raised? <==> l.Raised? && r.Raised? && m.Raised?)
    && NoLonger(o, l) && NoLonger(o, r) && NoLonger(o, m)
    && (o == l || (o == r && StrictlyShorter(o, l)) || (o == m && StrictlyShorter(o, l) && StrictlyShorter(o, r)))
  }

  lemma ShorterIsShortest(l: Padding, r: Padding, m: Padding, o: Padding)
    ensures IsShortest(l, r, m, o) <==> o == Shorter(Shorter(l, r), m)
  { }

  // ------------------------------------------------------------------ one more byte never adds an occurrence

  /** The target `tb` with `a` bytes of `lb` before it and `b` bytes of `rb` after it. */
  function Span(lb: seq<Byte>, tb: seq<Byte>, rb: seq<Byte>, a: nat, b: nat): seq<Byte>
    requires a <= |lb| && b <= |rb|
  {
    lb[|lb| - a..] + tb + rb[..b]
  }

  lemma SpanDigits(lb: seq<Byte>, tb: seq<Byte>, rb: seq<Byte>, a: nat, b: nat)
    requires a <= |lb| && b <= |rb|
    ensures Digits(lb)[2 * |lb| - 2 * a..] + Digits(tb) + Digits(rb)[..2 * b] == Digits(Span(lb, tb, rb, a, b))
  {
    var x, y := lb[|lb| - a..], rb[..b];
    DigitsAt(lb, |lb| - a);
    DigitsAt(rb, b);
    DigitsConcat(x, tb);
    DigitsConcat(x + tb, y);
  }

  lemma LongerSpanCountsLess(raw: seq<Byte>, lb: seq<Byte>, tb: seq<Byte>, rb: seq<Byte>, a: nat, b: nat, c: nat,
                             d: nat)
    requires tb != [] && a <= c <= |lb| && b <= d <= |rb|
    ensures Count(raw, Span(lb, tb, rb, c, d)) <= Count(raw, Span(lb, tb, rb, a, b))
  {
    var x, y := lb[|lb| - c..|lb| - a], rb[b..d];
    var shorter := Span(lb, tb, rb, a, b);
    SpanGrows(lb, tb, rb, a, b, c, d);
    LongerCountsLess(raw, x, shorter, y, 0, 0);
  }

  lemma SpanGrows(lb: seq<Byte>, tb: seq<Byte>, rb: seq<Byte>, a: nat, b: nat, c: nat, d: nat)
    requires a <= c <= |lb| && b <= d <= |rb|
    ensures Span(lb, tb, rb, c, d) == lb[|lb| - c..|lb| - a] + Span(lb, tb, rb, a, b) + rb[b..d]
  {
    assert lb[|lb| - c..] == lb[|lb| - c..|lb| - a] + lb[|lb| - a..];
    assert rb[..d] == rb[..b] + rb[b..d];
  }

  /** In a table that contains the listing's bytes, every span occurs, and at the target. */
  lemma SpanOccurs(raw: seq<Byte>, pre: seq<Byte>, lb: seq<Byte>, tb: seq<Byte>, rb: seq<Byte>, post: seq<Byte>,
                   a: nat, b: nat)
    requires tb != [] && a <= |lb| && b <= |rb|
    requires raw == pre + lb + tb + rb + post
    ensures OccursAt(raw, Span(lb, tb, rb, a, b), |pre| + |lb| - a)
    ensures Count(raw, Span(lb, tb, rb, a, b)) >= 1
  {
    var at := |pre| + |lb| - a;
    var whole := Span(lb, tb, rb, |lb|, |rb|);
    var span := Span(lb, tb, rb, a, b);
    SpanGrows(lb, tb, rb, a, b, |lb|, |rb|);
    assert raw == pre + whole + post;
    assert raw == (pre + lb[..|lb| - a]) + span + (rb[b..] + post);
    OccurrenceIsCounted(raw, span, at);
  }

  /** `check` on the digits of a pattern asks whether `count` is one. */
  ghost predicate ChecksCount(check: seq<Nibble> -> Option<bool>, count: seq<Byte> -> nat) {
    forall p: seq<Byte> {:trigger count(p)} :: check(Digits(p)) == Some(count(p) == 1)
  }

  /** Every span occurs, and a wider one never more often. */
  ghost predicate SpansFall(count: seq<Byte> -> nat, lb: seq<Byte>, tb: seq<Byte>, rb: seq<Byte>) {
    forall a: nat, b: nat, c: nat, d: nat {:trigger Span(lb, tb, rb, a, b), Span(lb, tb, rb, c, d)} ::
      a <= c <= |lb| && b <= d <= |rb| ==> 1 <= count(Span(lb, tb, rb, c, d)) <= count(Span(lb, tb, rb, a, b))
  }

  lemma UniqueIsCountOne(check: seq<Nibble> -> Option<bool>, count: seq<Byte> -> nat, direction: Direction,
                         lb: seq<Byte>, tb: seq<Byte>, rb: seq<Byte>, left: seq<Nibble>, target: seq<Nibble>,
                         right: seq<Nibble>, k: nat)
    requires ChecksCount(check, count)
    requires left == Digits(lb) && target == Digits(tb) && right == Digits(rb) && Available(direction, left, right, k)
    ensures UniqueAt(check, direction, left, target, right, k)
            <==> count(Span(lb, tb, rb, TakenLeft(direction, k), TakenRight(direction, k))) == 1
  {
    SpanDigits(lb, tb, rb, TakenLeft(direction, k), TakenRight(direction, k));
  }

  /** How often the pattern of turn `k` is counted. */
  ghost function CountAt(count: seq<Byte> -> nat, direction: Direction, lb: seq<Byte>, tb: seq<Byte>, rb: seq<Byte>,
                         k: nat): nat
    requires TakenLeft(direction, k) <= |lb| && TakenRight(direction, k) <= |rb|
  {
    count(Span(lb, tb, rb, TakenLeft(direction, k), TakenRight(direction, k)))
  }

  lemma CountAtFalls(count: seq<Byte> -> nat, direction: Direction, lb: seq<Byte>, tb: seq<Byte>, rb: seq<Byte>,
                     n: nat, last: nat)
    requires SpansFall(count, lb, tb, rb)
    requires TakenLeft(direction, n) <= TakenLeft(direction, last) <= |lb|
    requires TakenRight(direction, n) <= TakenRight(direction, last) <= |rb|
    ensures 1 <= CountAt(count, direction, lb, tb, rb, last) <= CountAt(count, direction, lb, tb, rb, n)
  { }

  lemma SearchIsExact(check: seq<Nibble> -> Option<bool>, count: seq<Byte> -> nat, direction: Direction,
                      lb: seq<Byte>, tb: seq<Byte>, rb: seq<Byte>, left: seq<Nibble>, target: seq<Nibble>,
                      right: seq<Nibble>, o: Padding)
    requires SpansFall(count, lb, tb, rb)
    requires |left| == 2 * |lb| && |right| == 2 * |rb|
    requires forall k: nat {:trigger Available(direction, left, right, k)} :: Available(direction, left, right, k) ==>
               (UniqueAt(check, direction, left, target, right, k) <==> CountAt(count, direction, lb, tb, rb, k) == 1)
    requires PadFor(check, direction, left, target, right, o)
    ensures o.Padded? <==> CountAt(count, direction, lb, tb, rb, LastTurn(direction, left, right)) == 1
  {
    hide SpansFall, CountAt, UniqueAt, PadAt, NotUniqueBelow;
    var last := LastTurn(direction, left, right);
    if o.Padded? {
      var n: nat :| FirstUnique(check, direction, left, target, right, 0, n) && o == PadAt(direction, left, right, n);
      LastTurnIsWidest(direction, lb, rb, left, right, n, last);
      CountAtFalls(count, direction, lb, tb, rb, n, last);
    }
  }

  lemma LastTurnIsWidest(direction: Direction, lb: seq<Byte>, rb: seq<Byte>, left: seq<Nibble>, right: seq<Nibble>,
                         n: nat, last: nat)
    requires |left| == 2 * |lb| && |right| == 2 * |rb| && last == LastTurn(direction, left, right)
    requires Available(direction, left, right, n)
    ensures TakenLeft(direction, n) <= TakenLeft(direction, last) <= |lb|
    ensures TakenRight(direction, n) <= TakenRight(direction, last) <= |rb|
  {
    if n > last { AvailableBelow(direction, left, right, last + 1, n); }
  }

  lemma TableChecksCount(raw: seq<Byte>)
    ensures ChecksCount(OnceIn(raw), CountIn(raw))
  {
    forall p: seq<Byte> ensures OnceIn(raw)(Digits(p)) == Some(CountIn(raw)(p) == 1) { UnhexDigits(p); }
  }

  lemma TableSpansFall(raw: seq<Byte>, pre: seq<Byte>, lb: seq<Byte>, tb: seq<Byte>, rb: seq<Byte>, post: seq<Byte>)
    requires tb != [] && raw == pre + lb + tb + rb + post
    ensures SpansFall(CountIn(raw), lb, tb, rb)
  {
    forall a: nat, b: nat, c: nat, d: nat | a <= c <= |lb| && b <= d <= |rb|
      ensures 1 <= CountIn(raw)(Span(lb, tb, rb, c, d)) <= CountIn(raw)(Span(lb, tb, rb, a, b))
    {
      SpanOccurs(raw, pre, lb, tb, rb, post, c, d);
      LongerSpanCountsLess(raw, lb, tb, rb, a, b, c, d);
    }
  }

  /** Widening until a needed side of the listing runs out gives a pattern that is counted once. */
  ghost predicate UniqueAtEdge(count: seq<Byte> -> nat, direction: Direction, lb: seq<Byte>, tb: seq<Byte>,
                               rb: seq<Byte>) {
    CountAt(count, direction, lb, tb, rb, LastTurn(direction, Digits(lb), Digits(rb))) == 1
  }

  /**
   * The search is exact: it succeeds iff widening until a needed side runs out gives a pattern that is counted once.
   * (By PadFor it then returns the first turn that is unique, so the shortest pad of its direction.)
   */
  lemma PadExistsIff(check: seq<Nibble> -> Option<bool>, count: seq<Byte> -> nat, direction: Direction,
                     lb: seq<Byte>, tb: seq<Byte>, rb: seq<Byte>, o: Padding)
    requires ChecksCount(check, count) && SpansFall(count, lb, tb, rb)
    requires PadFor(check, direction, Digits(lb), Digits(tb), Digits(rb), o)
    ensures o.Padded? <==> UniqueAtEdge(count, direction, lb, tb, rb)
  {
    var left, right := Digits(lb), Digits(rb);
    forall k: nat | Available(direction, left, right, k)
      ensures UniqueAt(check, direction, left, Digits(tb), right, k) <==> CountAt(count, direction, lb, tb, rb, k) == 1
    {
      UniqueIsCountOne(check, count, direction, lb, tb, rb, left, Digits(tb), right, k);
    }
    SearchIsExact(check, count, direction, lb, tb, rb, left, Digits(tb), right, o);
  }
}
