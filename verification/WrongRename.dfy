/** A listing on which the shortest pad of one object renames another. */
module WrongRename {
  import opened Options
  import opened Sequences
  import opened ByteSearch
  import opened HexListing
  import opened UniquePad
  import opened PadTheorems
  import opened RenamePatch

  lemma StartsAlike(raw: seq<Byte>, pattern: seq<Byte>, j: int)
    requires pattern != []
    ensures OccursAt(raw, pattern, j) ==> raw[j] == pattern[0]
  {
    if OccursAt(raw, pattern, j) { assert raw[j..j + |pattern|][0] == pattern[0]; }
  }

  lemma NextMatch(raw: seq<Byte>, pattern: seq<Byte>, i: nat, k: nat)
    requires pattern != [] && i <= k && OccursAt(raw, pattern, k)
    requires forall j :: i <= j < k ==> raw[j] != pattern[0]
    ensures FindFrom(raw, pattern, i) == Some(k)
    ensures CountFrom(raw, pattern, i) == 1 + CountFrom(raw, pattern, k + |pattern|)
  {
    FindFromIsFirst(raw, pattern, i);
    forall j | i <= j < k ensures !OccursAt(raw, pattern, j) {
      StartsAlike(raw, pattern, j);
    }
  }

  lemma NoMatch(raw: seq<Byte>, pattern: seq<Byte>, i: nat)
    requires pattern != []
    requires forall j :: i <= j && j + |pattern| <= |raw| ==> raw[j] != pattern[0]
    ensures CountFrom(raw, pattern, i) == 0
  {
    FindFromIsFirst(raw, pattern, i);
    forall j | i <= j ensures !OccursAt(raw, pattern, j) {
      StartsAlike(raw, pattern, j);
    }
  }

  const ZERO := Byte('0', '0')
  const A := Byte('4', '1')
  const STA: seq<Byte> := [UNDERSCORE, Byte('5', '3'), Byte('5', '4'), A]

  /** Two objects named _STA, each after a zero byte, and the first after another 41. */
  const TABLE: seq<Byte> := [A, ZERO] + STA + [ZERO] + STA + [ZERO]

  lemma TableMatches()
    ensures |TABLE| == 12 && |STA| == 4
    ensures OccursAt(TABLE, STA, 2) && OccursAt(TABLE, STA, 7)
    ensures OccursAt(TABLE, [ZERO] + STA, 1) && OccursAt(TABLE, [ZERO] + STA, 6)
    ensures OccursAt(TABLE, [A, ZERO] + STA, 0) && OccursAt(TABLE, [A, ZERO] + STA, 5)
  {
    assert TABLE[2..6] == STA && TABLE[7..11] == STA;
    assert TABLE[1..6] == [ZERO] + STA && TABLE[6..11] == [ZERO] + STA;
    assert TABLE[0..6] == [A, ZERO] + STA && TABLE[5..11] == [A, ZERO] + STA;
  }

  lemma CountBare()
    ensures Count(TABLE, STA) == 2
  {
    TableMatches();
    NextMatch(TABLE, STA, 0, 2);
    NextMatch(TABLE, STA, 6, 7);
    NoMatch(TABLE, STA, 11);
  }

  lemma CountWithOne()
    ensures Count(TABLE, [ZERO] + STA) == 2
  {
    TableMatches();
    NextMatch(TABLE, [ZERO] + STA, 0, 1);
    NextMatch(TABLE, [ZERO] + STA, 6, 6);
    NoMatch(TABLE, [ZERO] + STA, 11);
  }

  lemma CountWithTwo()
    ensures Count(TABLE, [A, ZERO] + STA) == 1
  {
    TableMatches();
    NextMatch(TABLE, [A, ZERO] + STA, 0, 0);
    NoMatch(TABLE, [A, ZERO] + STA, 6);
  }

  lemma CountWithOneRight()
    ensures Count(TABLE, STA + [ZERO]) == 2
  {
    TableMatches();
    NextMatch(TABLE, STA + [ZERO], 0, 2);
    NextMatch(TABLE, STA + [ZERO], 7, 7);
    NoMatch(TABLE, STA + [ZERO], 12);
  }

  /** Between zero bytes the name occurs twice, but the occurrences share a zero byte. */
  lemma CountBetween()
    ensures Count(TABLE, [ZERO] + STA + [ZERO]) == 1
  {
    TableMatches();
    NextMatch(TABLE, [ZERO] + STA + [ZERO], 0, 1);
    NoMatch(TABLE, [ZERO] + STA + [ZERO], 7);
  }

  // ------------------------------------------------------------------ the searches on the bytes

  const BEFORE: seq<Byte> := [A, ZERO] + STA + [ZERO]
  const AFTER: seq<Byte> := [ZERO]

  /** How often the name is counted with `a` bytes before and `b` bytes after it, the name being the second one. */
  lemma SpanCounts()
    ensures |BEFORE| == 7 && |AFTER| == 1 && TABLE == BEFORE + STA + AFTER
    ensures Count(TABLE, Span(BEFORE, STA, AFTER, 0, 0)) == 2 && Count(TABLE, Span(BEFORE, STA, AFTER, 1, 0)) == 2
    ensures Count(TABLE, Span(BEFORE, STA, AFTER, 2, 0)) == 1 && Count(TABLE, Span(BEFORE, STA, AFTER, 0, 1)) == 2
    ensures Count(TABLE, Span(BEFORE, STA, AFTER, 1, 1)) == 1
  {
    CountBare();
    CountWithOne();
    CountWithTwo();
    CountWithOneRight();
    CountBetween();
    assert BEFORE[7..] == [] && BEFORE[6..] == [ZERO] && BEFORE[5..] == [A, ZERO];
    assert AFTER[..0] == [] && AFTER[..1] == [ZERO];
    assert Span(BEFORE, STA, AFTER, 0, 0) == STA && Span(BEFORE, STA, AFTER, 1, 0) == [ZERO] + STA;
    assert Span(BEFORE, STA, AFTER, 2, 0) == [A, ZERO] + STA && Span(BEFORE, STA, AFTER, 0, 1) == STA + [ZERO];
    assert Span(BEFORE, STA, AFTER, 1, 1) == [ZERO] + STA + [ZERO];
  }

  const LEFT_PAD := Padded(Digits([A, ZERO]), [])
  const BOTH_PAD := Padded(Digits([ZERO]), Digits([ZERO]))

  /** Whether turn `k` is unique, from the count of its span. */
  lemma TurnIsUniqueIff(direction: Direction, k: nat)
    requires TakenLeft(direction, k) <= 7 && TakenRight(direction, k) <= 1 && |BEFORE| == 7 && |AFTER| == 1
    ensures Available(direction, Digits(BEFORE), Digits(AFTER), k)
    ensures UniqueAt(OnceIn(TABLE), direction, Digits(BEFORE), Digits(STA), Digits(AFTER), k)
      <==> Count(TABLE, Span(BEFORE, STA, AFTER, TakenLeft(direction, k), TakenRight(direction, k))) == 1
  {
    TableChecksCount(TABLE);
    UniqueIsCountOne(OnceIn(TABLE), CountIn(TABLE), direction, BEFORE, STA, AFTER, Digits(BEFORE), Digits(STA),
                     Digits(AFTER), k);
    var span := Span(BEFORE, STA, AFTER, TakenLeft(direction, k), TakenRight(direction, k));
    assert |span| >= |STA| == 4;
    CountInIs(TABLE, span);
  }

  lemma LeftSearch()
    ensures PadFor(OnceIn(TABLE), Backward, Digits(BEFORE), Digits(STA), Digits(AFTER), LEFT_PAD)
  {
    SpanCounts();
    TurnIsUniqueIff(Backward, 0);
    TurnIsUniqueIff(Backward, 1);
    TurnIsUniqueIff(Backward, 2);
    DigitsAt(BEFORE, 5);
    assert BEFORE[5..] == [A, ZERO];
    assert PadAt(Backward, Digits(BEFORE), Digits(AFTER), 2) == LEFT_PAD;
    assert FirstUnique(OnceIn(TABLE), Backward, Digits(BEFORE), Digits(STA), Digits(AFTER), 0, 2);
  }

  lemma RightSearch()
    ensures PadFor(OnceIn(TABLE), Forward, Digits(BEFORE), Digits(STA), Digits(AFTER), Raised)
  {
    SpanCounts();
    TurnIsUniqueIff(Forward, 0);
    TurnIsUniqueIff(Forward, 1);
  }

  lemma BothSearch()
    ensures PadFor(OnceIn(TABLE), Both, Digits(BEFORE), Digits(STA), Digits(AFTER), BOTH_PAD)
  {
    SpanCounts();
    TurnIsUniqueIff(Both, 0);
    TurnIsUniqueIff(Both, 1);
    TurnIsUniqueIff(Both, 2);
    DigitsAt(BEFORE, 6);
    DigitsAt(AFTER, 1);
    assert BEFORE[6..] == [ZERO] && AFTER[..1] == [ZERO];
    assert PadAt(Both, Digits(BEFORE), Digits(AFTER), 2) == BOTH_PAD;
    assert FirstUnique(OnceIn(TABLE), Both, Digits(BEFORE), Digits(STA), Digits(AFTER), 0, 2);
  }

  // ------------------------------------------------------------------ the searches on a listing

  const ANY := Line.Text(0, 0, None)

  /** Each object followed by its bytes; the second block starts at line 3. */
  const LINES: seq<Line> := [ANY, Line.Hex(Digits(BEFORE)), ANY, Line.Hex(Digits(STA + AFTER))]

  lemma LinesShowTable()
    ensures |LINES| == 4 && Listing(LINES) && DigitsIn(LINES, 0, 4) == Digits(TABLE)
    ensures DigitsIn(LINES, 0, 3) == Digits(BEFORE) && DigitsIn(LINES, 3, 4) == Digits(STA + AFTER)
    ensures RunEnd(LINES, 3) == 4 && LINES[3].Hex?
  {
    assert DigitsIn(LINES, 0, 1) == [] && DigitsIn(LINES, 0, 2) == Digits(BEFORE);
    assert DigitsIn(LINES, 0, 3) == Digits(BEFORE) + [];
    assert DigitsIn(LINES, 3, 4) == [] + Digits(STA + AFTER);
    DigitsConcat(BEFORE, STA + AFTER);
    assert TABLE == BEFORE + (STA + AFTER);
    assert RunEnd(LINES, 4) == 4;
  }

  const PLACE := Loaded(Digits(STA + AFTER), 3)

  lemma NameIsLocated()
    ensures |LINES| == 4 && LINES[3].Hex?
    ensures IsLocation(LINES, 3, Digits(STA), Cap(LINES, Digits(STA), 3), PLACE)
    ensures Digits(STA) != [] && Occurrence(PLACE.line, Digits(STA), 0, 0) == Some(0)
    ensures PLACE.line[8..] == Digits(AFTER) && |Digits(STA)| == 8
  {
    LinesShowTable();
    DigitsAt(STA + AFTER, 4);
    assert (STA + AFTER)[..4] == STA && (STA + AFTER)[4..] == AFTER;
    assert PLACE.line[0..0 + 8] == Digits(STA);
    assert OccursAt(PLACE.line, Digits(STA), 0);
    assert StopsAt(LINES, 3, Digits(STA), Cap(LINES, Digits(STA), 3), 3);
  }

  lemma SidesShown()
    ensures |LINES| == 4 && |PLACE.line| >= 8
    ensures LeftDigits(LINES, 3, PLACE.line[..0]) == Digits(BEFORE)
    ensures RightDigits(LINES, 3, PLACE.line[8..]) == Digits(AFTER)
  {
    LinesShowTable();
    NameIsLocated();
    StartsBlock(LINES, 3);
    assert PLACE.line[..0] == [] && DigitsIn(LINES, 4, 4) == [];
    assert Digits(BEFORE) + [] == Digits(BEFORE) && Digits(AFTER) + [] == Digits(AFTER);
  }

  /** A search between the bytes is a search on the listing. */
  lemma ListingSearch(direction: Direction, o: Padding)
    requires PadFor(OnceIn(TABLE), direction, Digits(BEFORE), Digits(STA), Digits(AFTER), o)
    ensures |LINES| == 4 && IsPad(LINES, TABLE, Digits(STA), 3, direction, 0, o)
  {
    hide PadFor;
    NameIsLocated();
    SidesShown();
    SearchAtLocation(LINES, OnceIn(TABLE), Digits(STA), 3, direction, 0, PLACE, 0, o);
  }

  lemma Searches()
    ensures |LINES| == 4 && IsPad(LINES, TABLE, Digits(STA), 3, Backward, 0, LEFT_PAD)
    ensures IsPad(LINES, TABLE, Digits(STA), 3, Forward, 0, Raised)
    ensures IsPad(LINES, TABLE, Digits(STA), 3, Both, 0, BOTH_PAD)
  {
    LeftSearch();
    RightSearch();
    BothSearch();
    ListingSearch(Backward, LEFT_PAD);
    ListingSearch(Forward, Raised);
    ListingSearch(Both, BOTH_PAD);
  }

  lemma SamePads(check: seq<Nibble> -> Option<bool>, target: seq<Nibble>, l: Padding, r: Padding, m: Padding)
    requires IsPadFor(LINES, check, target, 3, Backward, 0, l) &&
      IsPadFor(LINES, check, target, 3, Backward, 0, LEFT_PAD)
    requires IsPadFor(LINES, check, target, 3, Forward, 0, r) && IsPadFor(LINES, check, target, 3, Forward, 0, Raised)
    requires IsPadFor(LINES, check, target, 3, Both, 0, m) && IsPadFor(LINES, check, target, 3, Both, 0, BOTH_PAD)
    ensures l == LEFT_PAD && r == Raised && m == BOTH_PAD
  {
    PadIsUnique(LINES, check, target, 3, Backward, 0, l, LEFT_PAD);
    PadIsUnique(LINES, check, target, 3, Forward, 0, r, Raised);
    PadIsUnique(LINES, check, target, 3, Both, 0, m, BOTH_PAD);
  }

  lemma LeftPadHitsFirst()
    ensures OccursAt(TABLE, STA, 7) && Count(TABLE, [A, ZERO] + STA) == 1 && Renames(STA, STA[0 := LETTER_X])
    ensures |TABLE| == 12
    ensures Replace(TABLE, [A, ZERO] + STA, [A, ZERO] + STA[0 := LETTER_X]) == TABLE[2 := LETTER_X]
  {
    TableMatches();
    CountWithTwo();
    var renamed := STA[0 := LETTER_X];
    assert [A, ZERO] + STA + [] == [A, ZERO] + STA && [A, ZERO] + renamed + [] == [A, ZERO] + renamed;
    var at := RenameChangesOneByte(TABLE, [A, ZERO], STA, [], renamed);
  }

  /**
   * For the second _STA, at byte 7 of the table, the shortest pad is two bytes to the left. Its pattern is counted
   * once, because its two occurrences overlap; and the byte that the patch changes is that of the first _STA, at 2.
   */
  lemma WrongObjectRenamed()
    ensures |LINES| == 4 && Listing(LINES) && DigitsIn(LINES, 0, 4) == Digits(TABLE)
    ensures |DigitsIn(LINES, 0, 3)| == 2 * 7 && OccursAt(TABLE, STA, 7) && |TABLE| == 12
    ensures IsPad(LINES, TABLE, Digits(STA), 3, Backward, 0, LEFT_PAD)
    ensures IsPad(LINES, TABLE, Digits(STA), 3, Forward, 0, Raised)
    ensures IsPad(LINES, TABLE, Digits(STA), 3, Both, 0, BOTH_PAD)
    ensures IsShortest(LEFT_PAD, Raised, BOTH_PAD, LEFT_PAD) && LEFT_PAD == Padded(Digits([A, ZERO]), [])
    ensures Renames(STA, STA[0 := LETTER_X]) && Count(TABLE, [A, ZERO] + STA) == 1
    ensures Replace(TABLE, [A, ZERO] + STA, [A, ZERO] + STA[0 := LETTER_X]) == TABLE[2 := LETTER_X]
  {
    Searches();
    LinesShowTable();
    LeftPadHitsFirst();
    SpanCounts();
  }

  /** That pad is the only result that the specification of `get_shortest_unique_pad` allows here. */
  lemma WrongPadIsTheResult(l: Padding, r: Padding, m: Padding, o: Padding)
    requires IsPad(LINES, TABLE, Digits(STA), 3, Backward, 0, l)
    requires IsPad(LINES, TABLE, Digits(STA), 3, Forward, 0, r)
    requires IsPad(LINES, TABLE, Digits(STA), 3, Both, 0, m)
    requires IsShortest(l, r, m, o)
    ensures o == LEFT_PAD
  {
    Searches();
    SamePads(OnceIn(TABLE), Digits(STA), l, r, m);
  }
}
