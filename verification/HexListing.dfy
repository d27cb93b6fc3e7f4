/**
 * The disassembler's mixed listing: lines of hexadecimal bytes between lines of source text, and the walks from one
 * block of hex lines to the next.
 */
module HexListing {
  import opened Options
  import opened ByteSearch

  datatype Kind = Processor | Scope | Device | Method | Name

  datatype Decl = Decl(kind: Kind, name: string)

  /** Of a hex line only its digits matter, of a text line its braces and its declaration. */
  datatype Line = Hex(digits: seq<Nibble>) | Text(opens: nat, closes: nat, decl: Option<Decl>)

  /** The pattern for hex lines asks for one or more pairs of digits. */
  ghost predicate Listing(lines: seq<Line>) {
    forall k: nat {:trigger lines[k]} :: k < |lines| && lines[k].Hex? ==>
      lines[k].digits != [] && |lines[k].digits| % 2 == 0
  }

  function DigitsOf(l: Line): seq<Nibble> {
    match l
    case Hex(digits) => digits
    case Text(_, _, _) => []
  }

  /** The digits of the hex lines from `i` up to, not including, `j`, in order. */
  function DigitsIn(lines: seq<Line>, i: nat, j: nat): seq<Nibble>
    requires i <= j <= |lines|
  {
    if i == j then [] else DigitsIn(lines, i, j - 1) + DigitsOf(lines[j - 1])
  }

  lemma {:induction false} DigitsSplit(lines: seq<Line>, i: nat, j: nat, k: nat)
    requires i <= j <= k <= |lines|
    ensures DigitsIn(lines, i, k) == DigitsIn(lines, i, j) + DigitsIn(lines, j, k)
    decreases k - j
  {
    if j < k { DigitsSplit(lines, i, j, k - 1); }
  }

  lemma {:induction false} TextHasNoDigits(lines: seq<Line>, i: nat, j: nat)
    requires i <= j <= |lines| && forall k :: i <= k < j ==> lines[k].Text?
    ensures DigitsIn(lines, i, j) == []
    decreases j - i
  {
    if i < j { TextHasNoDigits(lines, i, j - 1); }
  }

  lemma {:induction false} DigitsAreEven(lines: seq<Line>, i: nat, j: nat)
    requires Listing(lines) && i <= j <= |lines|
    ensures |DigitsIn(lines, i, j)| % 2 == 0
    decreases j
  {
    if i < j { DigitsAreEven(lines, i, j - 1); }
  }

  /** Text lines at the start or at the end of a stretch add nothing. */
  lemma SkipText(lines: seq<Line>, i: nat, j: nat, k: nat)
    requires i <= j <= k <= |lines|
    ensures (forall m :: i <= m < j ==> lines[m].Text?) ==> DigitsIn(lines, i, k) == DigitsIn(lines, j, k)
    ensures (forall m :: j <= m < k ==> lines[m].Text?) ==> DigitsIn(lines, i, k) == DigitsIn(lines, i, j)
  {
    DigitsSplit(lines, i, j, k);
    if forall m :: i <= m < j ==> lines[m].Text? { TextHasNoDigits(lines, i, j); }
    if forall m :: j <= m < k ==> lines[m].Text? { TextHasNoDigits(lines, j, k); }
  }

  // ------------------------------------------------------------------ walking

  function RunEnd(lines: seq<Line>, i: nat): (j: nat)
    requires i <= |lines|
    ensures i <= j <= |lines|
    decreases |lines| - i
  {
    if i < |lines| && lines[i].Hex? then RunEnd(lines, i + 1) else i
  }

  /** The first line of the run of hex lines that ends at `j`. */
  function RunStart(lines: seq<Line>, j: nat): (i: nat)
    requires j <= |lines|
    ensures i <= j
  {
    if j > 0 && lines[j - 1].Hex? then RunStart(lines, j - 1) else j
  }

  function GapEnd(lines: seq<Line>, i: nat): (j: nat)
    requires i <= |lines|
    ensures i <= j <= |lines|
    ensures j < |lines| ==> lines[j].Hex?
    decreases |lines| - i
  {
    if i < |lines| && lines[i].Text? then GapEnd(lines, i + 1) else i
  }

  function GapStart(lines: seq<Line>, j: nat): (i: nat)
    requires j <= |lines|
    ensures i <= j
    ensures i > 0 ==> lines[i - 1].Hex?
  {
    if j > 0 && lines[j - 1].Text? then GapStart(lines, j - 1) else j
  }

  /** What a run of hex lines is: hex from `i` to `j`, and no further. */
  lemma {:induction false} RunEndIs(lines: seq<Line>, i: nat)
    requires i <= |lines|
    ensures forall k :: i <= k < RunEnd(lines, i) ==> lines[k].Hex?
    ensures RunEnd(lines, i) < |lines| ==> lines[RunEnd(lines, i)].Text?
    decreases |lines| - i
  {
    if i < |lines| && lines[i].Hex? { RunEndIs(lines, i + 1); }
  }

  lemma {:induction false} RunStartIs(lines: seq<Line>, j: nat)
    requires j <= |lines|
    ensures forall k :: RunStart(lines, j) <= k < j ==> lines[k].Hex?
    ensures RunStart(lines, j) > 0 ==> lines[RunStart(lines, j) - 1].Text?
  {
    if j > 0 && lines[j - 1].Hex? { RunStartIs(lines, j - 1); }
  }

  lemma {:induction false} GapEndIs(lines: seq<Line>, i: nat)
    requires i <= |lines|
    ensures forall k :: i <= k < GapEnd(lines, i) ==> lines[k].Text?
    decreases |lines| - i
  {
    if i < |lines| && lines[i].Text? { GapEndIs(lines, i + 1); }
  }

  lemma {:induction false} GapStartIs(lines: seq<Line>, j: nat)
    requires j <= |lines|
    ensures forall k :: GapStart(lines, j) <= k < j ==> lines[k].Text?
  {
    if j > 0 && lines[j - 1].Text? { GapStartIs(lines, j - 1); }
  }

  /** A found block: its digits and its first and last line, or nothing. */
  datatype Found = Found(digits: seq<Nibble>, first: nat, last: nat) | NotFound

  /** `get_hex_starting_at`: the block from `start` on. Its first line is known to the caller. */
  function HexStartingAt(lines: seq<Line>, start: nat): (f: Found)
    ensures f.Found? ==> f.first == start <= f.last < |lines|
  {
    if start < |lines| && lines[start].Hex? then
      var end := RunEnd(lines, start);
      Found(DigitsIn(lines, start, end), start, end - 1)
    else NotFound
  }

  /** `find_next_hex`: past the block at `index`, the next block of hex lines. */
  function NextHex(lines: seq<Line>, index: nat): (f: Found)
    ensures f.Found? ==> index < f.last < |lines|
  {
    if index > |lines| then NotFound
    else HexStartingAt(lines, GapEnd(lines, RunEnd(lines, index)))
  }

  /** `find_previous_hex`: before the block at `index`, the previous block of hex lines. */
  function PreviousHex(lines: seq<Line>, index: nat): Found
    requires index < |lines|
  {
    var end := GapStart(lines, RunStart(lines, index + 1));
    if end == 0 then NotFound
    else
      var start := RunStart(lines, end);
      Found(DigitsIn(lines, start, end), start, end - 1)
  }

  /** Past the end `a` of a block, the digits still to come begin with those of the next block. */
  lemma NextHexTakes(lines: seq<Line>, last: nat, a: nat)
    requires last < |lines| && a == RunEnd(lines, last)
    ensures match NextHex(lines, last)
            case Found(d, first, end) =>
              a <= first <= end && DigitsIn(lines, a, |lines|) == d + DigitsIn(lines, end + 1, |lines|)
            case NotFound => DigitsIn(lines, a, |lines|) == []
  {
    var b := GapEnd(lines, a);
    GapEndIs(lines, a);
    SkipText(lines, a, b, |lines|);
    if b < |lines| { DigitsSplit(lines, b, RunEnd(lines, b), |lines|); }
  }

  lemma NextHexEndsBlock(lines: seq<Line>, last: nat)
    requires last < |lines| && NextHex(lines, last).Found?
    ensures RunEnd(lines, NextHex(lines, last).last) == NextHex(lines, last).last + 1
  {
    var b := GapEnd(lines, RunEnd(lines, last));
    RunEndIs(lines, b);
  }

  /** Before the start `a` of a block, the digits end with those of the previous block. */
  lemma PreviousHexTakes(lines: seq<Line>, first: nat, a: nat)
    requires first < |lines| && a == RunStart(lines, first + 1)
    ensures match PreviousHex(lines, first)
            case Found(d, start, end) =>
              start <= end < a && start == RunStart(lines, end + 1) &&
              DigitsIn(lines, 0, a) == DigitsIn(lines, 0, start) + d
            case NotFound => DigitsIn(lines, 0, a) == []
  {
    var b := GapStart(lines, a);
    GapStartIs(lines, a);
    SkipText(lines, 0, b, a);
    if b > 0 {
      DigitsSplit(lines, 0, RunStart(lines, b), b);
      RunStartIs(lines, first + 1);
    }
  }

  lemma BlockHasDigits(lines: seq<Line>, i: nat, j: nat)
    requires Listing(lines) && i < j <= |lines| && lines[i].Hex?
    ensures DigitsIn(lines, i, j) != []
    decreases j
  {
    if i + 1 < j { BlockHasDigits(lines, i, j - 1); }
  }
}
