/** The loops that walk the listing, proved to find the blocks that HexListing describes. */
module HexWalk {
  import opened ByteSearch
  import opened HexListing

  ghost predicate AllHex(lines: seq<Line>, i: int, j: int) {
    0 <= i <= j <= |lines| && forall k :: i <= k < j ==> lines[k].Hex?
  }

  ghost predicate AllText(lines: seq<Line>, i: int, j: int) {
    0 <= i <= j <= |lines| && forall k :: i <= k < j ==> lines[k].Text?
  }

  lemma RunEndAt(lines: seq<Line>, i: nat, j: nat)
    requires i <= j <= |lines| && AllHex(lines, i, j)
    ensures RunEnd(lines, i) == RunEnd(lines, j)
    decreases j - i
  {
    if i < j { RunEndAt(lines, i + 1, j); }
  }

  lemma RunStartAt(lines: seq<Line>, i: nat, j: nat)
    requires i <= j <= |lines| && AllHex(lines, i, j)
    ensures RunStart(lines, i) == RunStart(lines, j)
    decreases j - i
  {
    if i < j { RunStartAt(lines, i, j - 1); }
  }

  lemma GapEndAt(lines: seq<Line>, i: nat, j: nat)
    requires i <= j <= |lines| && AllText(lines, i, j)
    ensures GapEnd(lines, i) == GapEnd(lines, j)
    decreases j - i
  {
    if i < j { GapEndAt(lines, i + 1, j); }
  }

  lemma GapStartAt(lines: seq<Line>, i: nat, j: nat)
    requires i <= j <= |lines| && AllText(lines, i, j)
    ensures GapStart(lines, i) == GapStart(lines, j)
    decreases j - i
  {
    if i < j { GapStartAt(lines, i, j - 1); }
  }

  lemma DigitsOneFewer(lines: seq<Line>, i: nat, j: nat)
    requires i < j <= |lines|
    ensures DigitsIn(lines, i, j) == DigitsOf(lines[i]) + DigitsIn(lines, i + 1, j)
  {
    DigitsSplit(lines, i, i + 1, j);
    var own := DigitsOf(lines[i]);
    assert DigitsIn(lines, i, i) == [] && [] + own == own;
    assert DigitsIn(lines, i, i + 1) == own;
  }

  /** `get_hex_starting_at`; `last` is -1 when the line is not hex. */
  method GetHexStartingAt(lines: seq<Line>, start: nat) returns (digits: seq<Nibble>, last: int)
    ensures if start < |lines| && lines[start].Hex? then
              last == RunEnd(lines, start) - 1 && start <= last && digits == DigitsIn(lines, start, last + 1)
            else digits == [] && last == -1
  {
    digits, last := [], -1;
    if start >= |lines| {
      return;
    }
    var i := start;
    while i < |lines| && lines[i].Hex?
      invariant AllHex(lines, start, i)
      invariant digits == DigitsIn(lines, start, i)
      invariant last == if i == start then -1 else i - 1
      invariant i == start ==> digits == []
    {
      digits := digits + lines[i].digits;
      last := i;
      i := i + 1;
    }
    RunEndAt(lines, start, i);
  }

  /** `get_hex_ending_at`; `first` is -1 when the line is not hex. */
  method GetHexEndingAt(lines: seq<Line>, end: nat) returns (digits: seq<Nibble>, first: int)
    requires end < |lines|
    ensures if lines[end].Hex? then
              first == RunStart(lines, end + 1) && 0 <= first <= end && digits == DigitsIn(lines, first, end + 1)
            else digits == [] && first == -1
  {
    digits, first := [], -1;
    var i := end + 1;
    while i > 0 && lines[i - 1].Hex?
      invariant 0 <= i <= end + 1 && first == (if i == end + 1 then -1 else i)
      invariant AllHex(lines, i, end + 1)
      invariant digits == DigitsIn(lines, i, end + 1)
    {
      i := i - 1;
      DigitsOneFewer(lines, i, end + 1);
      digits := lines[i].digits + digits;
      first := i;
    }
    RunStartAt(lines, i, end + 1);
  }

  /** `find_next_hex`. */
  method FindNextHex(lines: seq<Line>, index: nat) returns (found: Found)
    ensures found == NextHex(lines, index)
  {
    if index >= |lines| {
      return NotFound;
    }
    var oldHex := true;
    ghost var gap := index;
    var i := index;
    while i < |lines|
      invariant index <= i <= |lines|
      invariant oldHex ==> AllHex(lines, index, i)
      invariant !oldHex ==> index <= gap < i && lines[gap].Text? && AllHex(lines, index, gap)
      invariant !oldHex ==> AllText(lines, gap, i)
    {
      if oldHex {
        if lines[i].Text? {
          oldHex := false;
          gap := i;
        }
      } else if lines[i].Hex? {
        RunEndAt(lines, index, gap);
        GapEndAt(lines, gap, i);
        var digits, last := GetHexStartingAt(lines, i);
        return Found(digits, i, last);
      }
      i := i + 1;
    }
    if oldHex {
      RunEndAt(lines, index, i);
    } else {
      RunEndAt(lines, index, gap);
      GapEndAt(lines, gap, i);
    }
    return NotFound;
  }

  /** `find_previous_hex`. */
  method FindPreviousHex(lines: seq<Line>, index: nat) returns (found: Found)
    requires index < |lines|
    ensures found == PreviousHex(lines, index)
  {
    var oldHex := true;
    ghost var gap := index + 1;
    var i: int := index;
    while i >= 0
      invariant -1 <= i <= index
      invariant oldHex ==> AllHex(lines, i + 1, index + 1)
      invariant !oldHex ==> i + 1 < gap <= index + 1 && lines[gap - 1].Text? && AllHex(lines, gap, index + 1)
      invariant !oldHex ==> AllText(lines, i + 1, gap)
    {
      if oldHex {
        if lines[i].Text? {
          oldHex := false;
          gap := i + 1;
        }
      } else if lines[i].Hex? {
        RunStartAt(lines, gap, index + 1);
        GapStartAt(lines, i + 1, gap);
        var digits, first := GetHexEndingAt(lines, i);
        return Found(digits, first, i);
      }
      i := i - 1;
    }
    if oldHex {
      RunStartAt(lines, 0, index + 1);
    } else {
      RunStartAt(lines, gap, index + 1);
      GapStartAt(lines, 0, gap);
    }
    return NotFound;
  }
}
