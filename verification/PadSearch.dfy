/** `get_unique_pad` and `get_shortest_unique_pad` as the loops they are, proved against UniquePad. */
module PadSearch {
  import opened Options
  import opened ByteSearch
  import opened HexListing
  import opened HexWalk
  import opened UniquePad

  // ------------------------------------------------------------------ one turn

  predicate GoesRight(direction: Direction, padl: seq<Nibble>, padr: seq<Nibble>) {
    direction.Forward? || (direction.Both? && |padr| <= |padl|)
  }

  /** After `k` turns: the pads, and the digits `l` and `r` that are still to be taken. */
  ghost predicate Turned(direction: Direction, left: seq<Nibble>, right: seq<Nibble>, k: nat,
                         padl: seq<Nibble>, padr: seq<Nibble>, l: seq<Nibble>, r: seq<Nibble>) {
    && Available(direction, left, right, k)
    && padl == left[|left| - 2 * TakenLeft(direction, k)..]
    && padr == right[..2 * TakenRight(direction, k)]
    && l == left[..|left| - 2 * TakenLeft(direction, k)]
    && r == right[2 * TakenRight(direction, k)..]
  }

  lemma TurnRight(direction: Direction, left: seq<Nibble>, right: seq<Nibble>, k: nat,
                  padl: seq<Nibble>, padr: seq<Nibble>, l: seq<Nibble>, r: seq<Nibble>)
    requires Turned(direction, left, right, k, padl, padr, l, r) && GoesRight(direction, padl, padr)
    ensures TakenRight(direction, k + 1) == TakenRight(direction, k) + 1 &&
      TakenLeft(direction, k + 1) == TakenLeft(direction, k)
    ensures if |r| < 2 then !Available(direction, left, right, k + 1)
            else Turned(direction, left, right, k + 1, padl, padr + r[..2], l, r[2..])
  { }

  lemma TurnLeft(direction: Direction, left: seq<Nibble>, right: seq<Nibble>, k: nat,
                 padl: seq<Nibble>, padr: seq<Nibble>, l: seq<Nibble>, r: seq<Nibble>)
    requires Turned(direction, left, right, k, padl, padr, l, r) && !GoesRight(direction, padl, padr)
    ensures TakenLeft(direction, k + 1) == TakenLeft(direction, k) + 1 &&
      TakenRight(direction, k + 1) == TakenRight(direction, k)
    ensures if |l| < 2 then !Available(direction, left, right, k + 1)
            else Turned(direction, left, right, k + 1, l[|l| - 2..] + padl, padr, l[..|l| - 2], r)
  { }

  lemma NoMoreTurns(check: seq<Nibble> -> Option<bool>, direction: Direction,
                    left: seq<Nibble>, target: seq<Nibble>, right: seq<Nibble>, k: nat)
    requires NotUniqueBelow(check, direction, left, target, right, 0, k + 1) &&
      !Available(direction, left, right, k + 1)
    ensures NeverUnique(check, direction, left, target, right)
  {
    forall n: nat | Available(direction, left, right, n) ensures n < k + 1 {
      if n >= k + 1 { AvailableBelow(direction, left, right, k + 1, n); }
    }
  }

  /** The test answers exactly for whole bytes. */
  ghost predicate AnswersWholeBytes(check: seq<Nibble> -> Option<bool>) {
    forall d: seq<Nibble> {:trigger check(d)} :: check(d).Some? <==> |d| % 2 == 0
  }

  lemma OnceInAnswersWholeBytes(raw: seq<Byte>)
    ensures AnswersWholeBytes(OnceIn(raw))
  {
    forall d: seq<Nibble> ensures OnceIn(raw)(d).Some? <==> |d| % 2 == 0 {
      assert Unhex(d).Some? <==> |d| % 2 == 0;
    }
  }

  lemma EvenPads(a: nat, n: nat, b: nat)
    ensures (2 * a + n + 2 * b) % 2 == n % 2
  { }

  /** A target of an odd number of digits is never whole bytes, however it is widened. */
  lemma OddIsNeverUnique(check: seq<Nibble> -> Option<bool>, direction: Direction, left: seq<Nibble>,
                         target: seq<Nibble>, right: seq<Nibble>)
    requires AnswersWholeBytes(check) && |target| % 2 == 1
    ensures NeverUnique(check, direction, left, target, right)
  {
    forall n: nat | Available(direction, left, right, n) ensures !UniqueAt(check, direction, left, target, right, n) {
      var d := Widened(direction, left, target, right, n);
      EvenPads(TakenLeft(direction, n), |target|, TakenRight(direction, n));
      assert |d| % 2 == 1;
      assert check(d).None?;
    }
  }

  // ------------------------------------------------------------------ what the loop keeps

  /** `k` turns found nothing; or nothing can be found any more, and the pads end in half a byte. */
  ghost predicate Searching(check: seq<Nibble> -> Option<bool>, direction: Direction, left: seq<Nibble>,
                            target: seq<Nibble>, right: seq<Nibble>,
                            k: nat, whole: bool, padl: seq<Nibble>, padr: seq<Nibble>, l: seq<Nibble>, r: seq<Nibble>) {
    && AnswersWholeBytes(check)
    && if whole then
         Turned(direction, left, right, k, padl, padr, l, r) &&
         NotUniqueBelow(check, direction, left, target, right, 0, k)
       else
         NeverUnique(check, direction, left, target, right) && check(padl + target + padr).None?
  }

  lemma SearchStarts(check: seq<Nibble> -> Option<bool>, direction: Direction, left: seq<Nibble>, target: seq<Nibble>,
                     right: seq<Nibble>)
    requires AnswersWholeBytes(check)
    ensures Searching(check, direction, left, target, right, 0, true, [], [], left, right)
  {
    assert TakenLeft(direction, 0) == 0 && TakenRight(direction, 0) == 0;
    assert left[|left|..] == [] && right[..0] == [] && left[..|left|] == left && right[0..] == right;
  }

  lemma FoundHere(check: seq<Nibble> -> Option<bool>, direction: Direction, left: seq<Nibble>, target: seq<Nibble>,
                  right: seq<Nibble>,
                  k: nat, whole: bool, padl: seq<Nibble>, padr: seq<Nibble>, l: seq<Nibble>, r: seq<Nibble>)
    requires Searching(check, direction, left, target, right, k, whole, padl, padr, l, r)
    requires check(padl + target + padr).Some?
    ensures whole && Available(direction, left, right, k)
    ensures check(padl + target + padr) == Some(true) ==>
      PadFor(check, direction, left, target, right, Padded(padl, padr))
    ensures check(padl + target + padr) == Some(false) ==>
      NotUniqueBelow(check, direction, left, target, right, 0, k + 1)
  {
    assert padl + target + padr == Widened(direction, left, target, right, k);
    if check(padl + target + padr) == Some(true) {
      assert FirstUnique(check, direction, left, target, right, 0, k);
    }
  }

  lemma HalfBytesHere(check: seq<Nibble> -> Option<bool>, direction: Direction, left: seq<Nibble>, target: seq<Nibble>,
                      right: seq<Nibble>,
                      k: nat, whole: bool, padl: seq<Nibble>, padr: seq<Nibble>, l: seq<Nibble>, r: seq<Nibble>)
    requires Searching(check, direction, left, target, right, k, whole, padl, padr, l, r)
    requires check(padl + target + padr).None?
    ensures PadFor(check, direction, left, target, right, Raised)
  {
    if whole {
      EvenPads(TakenLeft(direction, k), |target|, TakenRight(direction, k));
      assert |padl + target + padr| == 2 * TakenLeft(direction, k) + |target| + 2 * TakenRight(direction, k);
      OddIsNeverUnique(check, direction, left, target, right);
    }
  }

  lemma OneDigitMore(check: seq<Nibble> -> Option<bool>, d: seq<Nibble>, e: seq<Nibble>)
    requires AnswersWholeBytes(check) && check(d).Some? && |e| == |d| + 1
    ensures check(e).None?
  { }

  /** Two digits, one, or none were taken on the right. */
  lemma AfterRight(check: seq<Nibble> -> Option<bool>, direction: Direction, left: seq<Nibble>, target: seq<Nibble>,
                   right: seq<Nibble>,
              k: nat, padl: seq<Nibble>, padr: seq<Nibble>, l: seq<Nibble>, r: seq<Nibble>, taken: seq<Nibble>)
      returns (k': nat, whole: bool, r': seq<Nibble>)
    requires AnswersWholeBytes(check) && Turned(direction, left, right, k, padl, padr, l, r) &&
      GoesRight(direction, padl, padr)
    requires NotUniqueBelow(check, direction, left, target, right, 0, k + 1) && check(padl + target + padr).Some?
    requires taken == if |r| < 2 then r else r[..2]
    ensures taken == [] ==> PadFor(check, direction, left, target, right, Raised)
    ensures taken != [] ==> Searching(check, direction, left, target, right, k', whole, padl, padr + taken, l, r')
    ensures |r'| <= |r| && (whole ==> |r| >= 2 && r' == r[2..])
  {
    TurnRight(direction, left, right, k, padl, padr, l, r);
    if |r| < 2 {
      NoMoreTurns(check, direction, left, target, right, k);
      if taken != [] { OneDigitMore(check, padl + target + padr, padl + target + (padr + taken)); }
      k', whole, r' := k, false, r;
    } else {
      k', whole, r' := k + 1, true, r[2..];
    }
  }

  /** Two digits, one, or none were taken on the left. */
  lemma AfterLeft(check: seq<Nibble> -> Option<bool>, direction: Direction, left: seq<Nibble>, target: seq<Nibble>,
                  right: seq<Nibble>,
              k: nat, padl: seq<Nibble>, padr: seq<Nibble>, l: seq<Nibble>, r: seq<Nibble>, taken: seq<Nibble>)
      returns (k': nat, whole: bool, l': seq<Nibble>)
    requires AnswersWholeBytes(check) && Turned(direction, left, right, k, padl, padr, l, r) &&
      !GoesRight(direction, padl, padr)
    requires NotUniqueBelow(check, direction, left, target, right, 0, k + 1) && check(padl + target + padr).Some?
    requires taken == if |l| < 2 then l else l[|l| - 2..]
    ensures taken == [] ==> PadFor(check, direction, left, target, right, Raised)
    ensures taken != [] ==> Searching(check, direction, left, target, right, k', whole, taken + padl, padr, l', r)
    ensures |l'| <= |l| && (whole ==> |l| >= 2 && l' == l[..|l| - 2])
  {
    TurnLeft(direction, left, right, k, padl, padr, l, r);
    if |l| < 2 {
      NoMoreTurns(check, direction, left, target, right, k);
      if taken != [] { OneDigitMore(check, padl + target + padr, (taken + padl) + target + padr); }
      k', whole, l' := k, false, l;
    } else {
      k', whole, l' := k + 1, true, l[..|l| - 2];
    }
  }

  // ------------------------------------------------------------------ refilling from the next block

  lemma RefillRight(lines: seq<Line>, last: nat)
    requires Listing(lines) && last < |lines| && RunEnd(lines, last) == last + 1
    ensures match NextHex(lines, last)
            case Found(d, _, end) =>
              RightDigits(lines, last, []) == RightDigits(lines, end, d) && |d| % 2 == 0 && d != [] &&
              RunEnd(lines, end) == end + 1
            case NotFound => RightDigits(lines, last, []) == []
  {
    NextHexTakes(lines, last, last + 1);
    if NextHex(lines, last).Found? {
      NextHexEndsBlock(lines, last);
      NextHexHasDigits(lines, last);
    }
  }

  lemma NextHexHasDigits(lines: seq<Line>, last: nat)
    requires Listing(lines) && last < |lines| && NextHex(lines, last).Found?
    ensures NextHex(lines, last).digits != [] && |NextHex(lines, last).digits| % 2 == 0
  {
    var b := GapEnd(lines, RunEnd(lines, last));
    BlockHasDigits(lines, b, RunEnd(lines, b));
    DigitsAreEven(lines, b, RunEnd(lines, b));
  }

  lemma RefillLeft(lines: seq<Line>, first: nat)
    requires Listing(lines) && first < |lines|
    ensures match PreviousHex(lines, first)
            case Found(d, start, _) =>
              start < |lines| && LeftDigits(lines, first, []) == LeftDigits(lines, start, d) && |d| % 2 == 0 && d != []
            case NotFound => LeftDigits(lines, first, []) == []
  {
    PreviousHexTakes(lines, first, RunStart(lines, first + 1));
    match PreviousHex(lines, first)
    case Found(d, start, end) =>
      RunStartIs(lines, end + 1);
      BlockHasDigits(lines, start, end + 1);
      DigitsAreEven(lines, start, end + 1);
      assert RunStart(lines, start) == start;
    case NotFound =>
  }

  lemma TakeFromRight(lines: seq<Line>, last: nat, liner: seq<Nibble>)
    requires last < |lines| && liner != []
    ensures var r := RightDigits(lines, last, liner);
            if |liner| < 2 then r == liner
            else |r| >= 2 && r[..2] == liner[..2] && r[2..] == RightDigits(lines, last, liner[2..])
  {
    if |liner| >= 2 && |liner| % 2 == 0 {
      var more := DigitsIn(lines, last + 1, |lines|);
      assert (liner + more)[2..] == liner[2..] + more;
    }
  }

  lemma TakeFromLeft(lines: seq<Line>, first: nat, linel: seq<Nibble>)
    requires first < |lines| && linel != []
    ensures var l := LeftDigits(lines, first, linel);
            if |linel| < 2 then l == linel
            else
              |l| >= 2 && l[|l| - 2..] == linel[|linel| - 2..] &&
              l[..|l| - 2] == LeftDigits(lines, first, linel[..|linel| - 2])
  {
    if |linel| >= 2 && |linel| % 2 == 0 {
      var more := DigitsIn(lines, 0, RunStart(lines, first + 1));
      var l := more + linel;
      assert l[..|l| - 2] == more + linel[..|linel| - 2];
    }
  }

  // ------------------------------------------------------------------ the loops

  /** Up to two digits from the right, loading the next block when the line is used up. */
  method TakeRight(lines: seq<Line>, lastIndex: nat, line: seq<Nibble>)
      returns (taken: seq<Nibble>, last: nat, liner: seq<Nibble>)
    requires Listing(lines) && lastIndex < |lines| && RunEnd(lines, lastIndex) == lastIndex + 1
    ensures last < |lines| && RunEnd(lines, last) == last + 1
    ensures var r := RightDigits(lines, lastIndex, line);
            if |r| < 2 then taken == r else taken == r[..2] && RightDigits(lines, last, liner) == r[2..]
  {
    taken, last, liner := [], lastIndex, line;
    if liner == [] {
      RefillRight(lines, last);
      var found := FindNextHex(lines, last);
      if found.NotFound? {
        return;
      }
      liner, last := found.digits, found.last;
    }
    TakeFromRight(lines, last, liner);
    if |liner| < 2 {
      taken, liner := liner, [];
    } else {
      taken, liner := liner[..2], liner[2..];
    }
  }

  /** Up to two digits from the left, loading the previous block when the line is used up. */
  method TakeLeft(lines: seq<Line>, startIndex: nat, line: seq<Nibble>)
      returns (taken: seq<Nibble>, first: nat, linel: seq<Nibble>)
    requires Listing(lines) && startIndex < |lines|
    ensures first < |lines|
    ensures var l := LeftDigits(lines, startIndex, line);
            if |l| < 2 then taken == l else taken == l[|l| - 2..] && LeftDigits(lines, first, linel) == l[..|l| - 2]
  {
    taken, first, linel := [], startIndex, line;
    if linel == [] {
      RefillLeft(lines, first);
      var found := FindPreviousHex(lines, first);
      if found.NotFound? {
        return;
      }
      linel, first := found.digits, found.first;
    }
    TakeFromLeft(lines, first, linel);
    if |linel| < 2 {
      taken, linel := linel, [];
    } else {
      taken, linel := linel[|linel| - 2..], linel[..|linel| - 2];
    }
  }

  /** What is left of the loaded lines and of the blocks around them. */
  ghost predicate Beside(lines: seq<Line>, first: nat, linel: seq<Nibble>, last: nat, liner: seq<Nibble>,
                         l: seq<Nibble>,
                         r: seq<Nibble>)
  {
    && first < |lines| && last < |lines|
    && l == LeftDigits(lines, first, linel) && r == RightDigits(lines, last, liner)
  }

  /** One turn of the loop, after a check that was not unique; without digits on the needed side it gives up. */
  method TakeTurn(lines: seq<Line>, check: seq<Nibble> -> Option<bool>, direction: Direction, ghost left: seq<Nibble>,
                  target: seq<Nibble>, ghost right: seq<Nibble>, ghost k: nat, ghost whole: bool, padl: seq<Nibble>,
                  padr: seq<Nibble>, ghost l: seq<Nibble>, ghost r: seq<Nibble>, first: nat, linel: seq<Nibble>,
                  last: nat, liner: seq<Nibble>)
      returns (more: bool, first': nat, linel': seq<Nibble>, last': nat, liner': seq<Nibble>, padl': seq<Nibble>,
               padr': seq<Nibble>, ghost k': nat, ghost whole': bool, ghost l': seq<Nibble>, ghost r': seq<Nibble>)
    requires Listing(lines) && AnswersWholeBytes(check)
    requires first < |lines| && last < |lines| && RunEnd(lines, last) == last + 1
    requires whole ==> Beside(lines, first, linel, last, liner, l, r)
    requires Searching(check, direction, left, target, right, k, whole, padl, padr, l, r)
    requires check(padl + target + padr) == Some(false)
    ensures first' < |lines| && last' < |lines| && RunEnd(lines, last') == last' + 1
    ensures !more ==> PadFor(check, direction, left, target, right, Raised)
    ensures more ==> Searching(check, direction, left, target, right, k', whole', padl', padr', l', r')
    ensures more && whole' ==> Beside(lines, first', linel', last', liner', l', r')
    ensures whole && |l'| + |r'| <= |l| + |r| && (whole' ==> |l'| + |r'| < |l| + |r|)
  {
    hide PadFor, LeftDigits, RightDigits, RunEnd;
    FoundHere(check, direction, left, target, right, k, whole, padl, padr, l, r);
    first', linel', last', liner', padl', padr', l', r' := first, linel, last, liner, padl, padr, l, r;
    var taken;
    if GoesRight(direction, padl, padr) {
      taken, last', liner' := TakeRight(lines, last, liner);
      k', whole', r' := AfterRight(check, direction, left, target, right, k, padl, padr, l, r, taken);
      padr' := padr + taken;
    } else {
      taken, first', linel' := TakeLeft(lines, first, linel);
      k', whole', l' := AfterLeft(check, direction, left, target, right, k, padl, padr, l, r, taken);
      padl' := taken + padl;
    }
    more := taken != [];
  }

  /** The widening loop, from the digits left and right of the target in the lines loaded so far. */
  method Widen(lines: seq<Line>, check: seq<Nibble> -> Option<bool>, target: seq<Nibble>, direction: Direction,
               startIndex: nat, lastIndex: nat, lineLeft: seq<Nibble>, lineRight: seq<Nibble>) returns (o: Padding)
    requires Listing(lines) && AnswersWholeBytes(check)
    requires startIndex < |lines| && lastIndex < |lines| && RunEnd(lines, lastIndex) == lastIndex + 1
    ensures PadFor(check, direction, LeftDigits(lines, startIndex, lineLeft), target,
                   RightDigits(lines, lastIndex, lineRight), o)
  {
    ghost var left, right := LeftDigits(lines, startIndex, lineLeft), RightDigits(lines, lastIndex, lineRight);
    o := WidenBetween(lines, check, target, direction, startIndex, lastIndex, lineLeft, lineRight, left, right);
  }

  method WidenBetween(lines: seq<Line>, check: seq<Nibble> -> Option<bool>, target: seq<Nibble>, direction: Direction,
                      startIndex: nat, lastIndex: nat, lineLeft: seq<Nibble>, lineRight: seq<Nibble>,
                      ghost left: seq<Nibble>, ghost right: seq<Nibble>) returns (o: Padding)
    requires Listing(lines) && AnswersWholeBytes(check)
    requires Beside(lines, startIndex, lineLeft, lastIndex, lineRight, left, right)
    requires RunEnd(lines, lastIndex) == lastIndex + 1
    ensures PadFor(check, direction, left, target, right, o)
  {
    var first: nat, last: nat := startIndex, lastIndex;
    var linel, liner := lineLeft, lineRight;
    var padl: seq<Nibble>, padr: seq<Nibble> := [], [];
    ghost var l, r, k: nat, whole := left, right, 0, true;
    SearchStarts(check, direction, left, target, right);
    while true
      invariant first < |lines| && last < |lines| && RunEnd(lines, last) == last + 1
      invariant whole ==> Beside(lines, first, linel, last, liner, l, r)
      invariant Searching(check, direction, left, target, right, k, whole, padl, padr, l, r)
      decreases |l| + |r|, whole
    {
      var once := check(padl + target + padr);
      if once.None? {
        HalfBytesHere(check, direction, left, target, right, k, whole, padl, padr, l, r);
        return Raised;
      }
      if once.value {
        FoundHere(check, direction, left, target, right, k, whole, padl, padr, l, r);
        return Padded(padl, padr);
      }
      var more;
      more, first, linel, last, liner, padl, padr, k, whole, l, r :=
        TakeTurn(lines, check, direction, left, target, right, k, whole, padl, padr, l, r, first, linel, last, liner);
      if !more {
        return Raised;
      }
    }
  }

  lemma NextBlock(lines: seq<Line>, index: nat, last: nat, next: Found)
    requires index <= last && EndsBlock(lines, last) && next == NextHex(lines, last)
    ensures next.Found? ==>
              && last < next.last && EndsBlock(lines, next.last)
              && DigitsIn(lines, index, next.last + 1) == DigitsIn(lines, index, last + 1) + next.digits
              && forall e: nat :: last < e < next.last ==> !EndsBlock(lines, e)
    ensures next.NotFound? ==> forall e: nat :: last < e ==> !EndsBlock(lines, e)
  {
    hide DigitsIn;
    assert RunEnd(lines, last) == last + 1;
    var b := GapEnd(lines, last + 1);
    GapEndIs(lines, last + 1);
    if b < |lines| {
      var e := RunEnd(lines, b);
      RunEndIs(lines, b);
      SkipText(lines, last + 1, b, e);
      DigitsSplit(lines, index, last + 1, e);
    }
  }

  ghost predicate NoStopBelow(lines: seq<Line>, index: nat, target: seq<Nibble>, cap: nat, last: nat) {
    forall e: nat {:trigger StopsAt(lines, index, target, cap, e)} :: e < last ==>
      !StopsAt(lines, index, target, cap, e)
  }

  lemma PastBlock(lines: seq<Line>, index: nat, target: seq<Nibble>, cap: nat, line: seq<Nibble>, last: nat,
                  next: Found)
    requires index <= last && EndsBlock(lines, last) && line == DigitsIn(lines, index, last + 1)
    requires NoStopBelow(lines, index, target, cap, last) && !Enough(line, target, cap)
    requires next == NextHex(lines, last)
    ensures next.Found? ==>
              && last < next.last && EndsBlock(lines, next.last) && NoStopBelow(lines, index, target, cap, next.last)
              && DigitsIn(lines, index, next.last + 1) == line + next.digits
    ensures next.NotFound? ==> IsLocation(lines, index, target, cap, EndOfFile)
  {
    hide DigitsIn, RunEnd, GapEnd;
    NextBlock(lines, index, last, next);
    var stops, ends := (e: nat) => StopsAt(lines, index, target, cap, e), (e: nat) => EndsBlock(lines, e);
    EnoughIff(line, target, cap);
    assert !stops(last);
    if next.Found? { NothingBelow(stops, ends, last, next.last); } else { NothingAtAll(stops, ends, last); }
  }

  lemma NothingBelow(stops: nat -> bool, ends: nat -> bool, last: nat, bound: nat)
    requires (forall e: nat :: stops(e) ==> ends(e)) && (forall e: nat :: e < last ==> !stops(e)) && !stops(last)
    requires forall e: nat :: last < e < bound ==> !ends(e)
    ensures forall e: nat :: e < bound ==> !stops(e)
  { }

  lemma NothingAtAll(stops: nat -> bool, ends: nat -> bool, last: nat)
    requires (forall e: nat :: stops(e) ==> ends(e)) && (forall e: nat :: e < last ==> !stops(e)) && !stops(last)
    requires forall e: nat :: last < e ==> !ends(e)
    ensures forall e: nat :: !stops(e)
  { }

  /** The loop that loads blocks until the target is in the line or the line is long enough. */
  method Locate(lines: seq<Line>, index: nat, digits: seq<Nibble>, end: nat, cap: nat, target: seq<Nibble>)
      returns (location: Location)
    requires index <= end < |lines| && lines[index].Hex? && end + 1 == RunEnd(lines, index) &&
      digits == DigitsIn(lines, index, end + 1)
    ensures IsLocation(lines, index, target, cap, location)
  {
    var line, last := digits, end;
    FirstBlock(lines, index, target, cap);
    while !Enough(line, target, cap)
      invariant index <= last && EndsBlock(lines, last) && line == DigitsIn(lines, index, last + 1)
      invariant NoStopBelow(lines, index, target, cap, last)
      decreases |lines| - last
    {
      var next := FindNextHex(lines, last);
      PastBlock(lines, index, target, cap, line, last, next);
      if next.NotFound? {
        return EndOfFile;
      }
      line, last := line + next.digits, next.last;
    }
    EnoughIff(line, target, cap);
    location := Loaded(line, last);
  }

  lemma FirstBlock(lines: seq<Line>, index: nat, target: seq<Nibble>, cap: nat)
    requires index < |lines| && lines[index].Hex?
    ensures RunEnd(lines, index) > index && EndsBlock(lines, RunEnd(lines, index) - 1)
    ensures NoStopBelow(lines, index, target, cap, RunEnd(lines, index) - 1)
  {
    RunEndIs(lines, index);
  }

  /** `get_unique_pad`. */
  method GetUniquePad(lines: seq<Line>, raw: seq<Byte>, target: seq<Nibble>, index: nat, direction: Direction,
                      instance: nat)
      returns (o: Padding)
    requires Listing(lines)
    ensures IsPad(lines, raw, target, index, direction, instance, o)
  {
    OnceInAnswersWholeBytes(raw);
    o := PadByTest(lines, OnceIn(raw), target, index, direction, instance);
  }

  /** The same for any test of the widened digits. */
  method PadByTest(lines: seq<Line>, check: seq<Nibble> -> Option<bool>, target: seq<Nibble>, index: nat,
                   direction: Direction, instance: nat)
      returns (o: Padding)
    requires Listing(lines) && AnswersWholeBytes(check)
    ensures IsPadFor(lines, check, target, index, direction, instance, o)
  {
    var digits, end := GetHexStartingAt(lines, index);
    if end == -1 {
      return Raised;
    }
    var cap := |digits| + |target|;
    var location := Locate(lines, index, digits, end, cap, target);
    o := PadFrom(lines, check, target, index, direction, instance, location);
  }

  method PadFrom(lines: seq<Line>, check: seq<Nibble> -> Option<bool>, target: seq<Nibble>, index: nat,
                 direction: Direction, instance: nat, location: Location) returns (o: Padding)
    requires Listing(lines) && AnswersWholeBytes(check) && index < |lines|
    requires location.Loaded? ==> EndsBlock(lines, location.last)
    ensures IsPadFrom(lines, check, target, index, direction, instance, location, o)
  {
    hide PadFor, LeftDigits, RightDigits, Occurrence, Listing, AnswersWholeBytes;
    if location.EndOfFile? || target == [] {
      return Raised;
    }
    var line := location.line;
    var at := Occurrence(line, target, 0, instance);
    if at.None? {
      return Raised;
    }
    assert RunEnd(lines, location.last) == location.last + 1;
    o := Widen(lines, check, target, direction, index, location.last, line[..at.value], line[at.value + |target|..]);
  }

  /** `get_shortest_unique_pad`; Raised when none of the three searches found a pad. */
  method GetShortestUniquePad(lines: seq<Line>, raw: seq<Byte>, target: seq<Nibble>, index: nat,
                              instance: nat) returns (o: Padding)
    requires Listing(lines)
    ensures exists l, r, m ::
              && IsPad(lines, raw, target, index, Backward, instance, l)
              && IsPad(lines, raw, target, index, Forward, instance, r)
              && IsPad(lines, raw, target, index, Both, instance, m)
              && IsShortest(l, r, m, o)
  {
    var leftPad := GetUniquePad(lines, raw, target, index, Backward, instance);
    var rightPad := GetUniquePad(lines, raw, target, index, Forward, instance);
    var midPad := GetUniquePad(lines, raw, target, index, Both, instance);
    o := Shorter(Shorter(leftPad, rightPad), midPad);
    ShorterIsShortest(leftPad, rightPad, midPad, o);
  }
}
