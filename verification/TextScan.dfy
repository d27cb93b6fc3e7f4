/** Lines and brace blocks of a disassembled table, found by moving an index. */
module TextScan {
  import opened Options
  import opened Text

  // ------------------------------------------------------------------ lines

  /** Walks back to a line break; the first character of the text is not looked at. */
  function LineStart(text: string, index: nat): (r: nat)
    requires index < |text|
    ensures r <= index + 1
  {
    if index == 0 then 0
    else if text[index] == '\n' then index + 1
    else LineStart(text, index - 1)
  }

  function LineEnd(text: string, start: nat): (r: nat)
    requires start <= |text|
    ensures start <= r <= |text| && (start < |text| ==> start < r)
    decreases |text| - start
  {
    if start == |text| then start
    else if text[start] == '\n' then start + 1
    else LineEnd(text, start + 1)
  }

  /** There is no line break in `i..j`. */
  predicate OneLine(text: string, i: nat, j: nat)
    requires j <= |text|
  {
    forall k :: i <= k < j ==> text[k] != '\n'
  }

  /** The text starts with a line break, and there is no other up to the index. */
  predicate MissesBreak(text: string, index: nat)
    requires index < |text|
  {
    text[0] == '\n' && OneLine(text, 1, index + 1)
  }

  lemma {:induction false} LineStartIs(text: string, index: nat)
    requires index < |text| && text[index] != '\n'
    ensures LineStart(text, index) <= index && LineStart(text, index) != 1
    ensures LineStart(text, index) > 0 ==> text[LineStart(text, index) - 1] == '\n'
    ensures OneLine(text, if LineStart(text, index) == 0 then 1 else LineStart(text, index), index + 1)
  {
    if index > 0 && text[index - 1] != '\n' { LineStartIs(text, index - 1); }
  }

  /** A line break at the very start is missed exactly when it is the only one up to the index. */
  lemma LineStartIsZeroIff(text: string, index: nat)
    requires index < |text| && text[index] != '\n'
    ensures LineStart(text, index) == 0 <==> OneLine(text, 1, index + 1)
  {
    LineStartIs(text, index);
  }

  /** The extracted line ends past its index exactly when no leading line break was missed. */
  lemma LineEndsPastIff(text: string, index: nat)
    requires index < |text| && text[index] != '\n'
    ensures LineEnd(text, LineStart(text, index)) > index <==> !MissesBreak(text, index)
  {
    LineStartIs(text, index);
    LineStartIsZeroIff(text, index);
    var start := LineStart(text, index);
    if !MissesBreak(text, index) {
      assert OneLine(text, start, index + 1);
      LineEndReaches(text, start, index + 1);
    }
  }

  lemma {:induction false} LineEndReaches(text: string, start: nat, j: nat)
    requires start <= j <= |text| && OneLine(text, start, j)
    ensures j <= LineEnd(text, start)
    decreases |text| - start
  {
    if start < j { LineEndReaches(text, start + 1, j); }
  }

  lemma {:induction false} LineEndIsOneLine(text: string, start: nat, j: nat)
    requires start <= |text| && start <= j < LineEnd(text, start)
    ensures OneLine(text, start, j)
    decreases |text| - start
  {
    if start < j { LineEndIsOneLine(text, start + 1, j); }
  }

  lemma {:induction false} LineEndsAtBreak(text: string, start: nat)
    requires start <= |text| && LineEnd(text, start) < |text|
    ensures LineEnd(text, start) > 0 && text[LineEnd(text, start) - 1] == '\n'
    decreases |text| - start
  {
    if text[start] != '\n' { LineEndsAtBreak(text, start + 1); }
  }

  /** Two indices of one line have the same line start. */
  lemma {:induction false} SameLine(text: string, i: nat, j: nat)
    requires i <= j < |text| && OneLine(text, i, j + 1)
    ensures LineStart(text, j) == LineStart(text, i)
  {
    if i < j { SameLine(text, i, j - 1); }
  }

  method FindLineStart(text: string, index: nat) returns (start: nat)
    requires index < |text|
    ensures start == LineStart(text, index)
  {
    var current := index;
    while current > 0
      invariant 0 <= current <= index && LineStart(text, current) == LineStart(text, index)
    {
      if text[current] == '\n' { return current + 1; }
      current := current - 1;
    }
    start := 0;
  }

  method ExtractLine(text: string, index: nat, blank: char -> bool) returns (line: string, start: nat, end: nat)
    requires index < |text|
    ensures start == LineStart(text, index) && end == LineEnd(text, start) && line == Strip(text[start..end], blank)
  {
    start := FindLineStart(text, index);
    end := start;
    while end < |text| && text[end] != '\n'
      invariant start <= end <= |text| && LineEnd(text, end) == LineEnd(text, start)
      decreases |text| - end
    {
      end := end + 1;
    }
    if end < |text| { end := end + 1; }
    line := Strip(text[start..end], blank);
  }

  // ------------------------------------------------------------------ blocks

  /** Opening minus closing braces in `i..j`. */
  function Depth(text: string, i: nat, j: nat): int
    requires i <= j <= |text|
  {
    if i == j then 0
    else Depth(text, i, j - 1) + if text[j - 1] == '{' then 1 else if text[j - 1] == '}' then -1 else 0
  }

  /** `i..j` is the shortest balanced block that starts at `i`. */
  predicate ShortestBlock(text: string, i: nat, j: nat)
    requires j <= |text|
  {
    i < j && Depth(text, i, j) == 0 && forall q :: i < q < j ==> Depth(text, i, q) > 0
  }

  predicate FirstBrace(text: string, start: nat, i: nat) {
    start <= i < |text| && text[i] == '{' && forall q :: start <= q < i ==> text[q] != '{'
  }

  function BraceFrom(text: string, start: nat): (r: Option<nat>)
    ensures r.Some? ==> FirstBrace(text, start, r.value)
    ensures r.None? ==> forall i: nat :: !FirstBrace(text, start, i)
    decreases |text| - start
  {
    if start >= |text| then None
    else if text[start] == '{' then Some(start)
    else
      var r := BraceFrom(text, start + 1);
      assert forall i: nat :: FirstBrace(text, start, i) ==> FirstBrace(text, start + 1, i);
      r
  }

  /** Where the count of open braces first comes down to zero. */
  function CloseFrom(text: string, pos: nat, count: int): (r: Option<nat>)
    requires pos <= |text|
    ensures r.Some? ==> pos <= r.value <= |text|
    decreases |text| - pos
  {
    if count <= 0 then if count == 0 then Some(pos) else None
    else if pos == |text| then None
    else CloseFrom(text, pos + 1, count + if text[pos] == '{' then 1 else if text[pos] == '}' then -1 else 0)
  }

  /** The text from the first opening brace to where its count comes down to zero, or nothing. */
  function Block(text: string, start: nat): string {
    match BraceFrom(text, start)
    case None => ""
    case Some(i) =>
      match CloseFrom(text, i + 1, 1)
      case None => ""
      case Some(j) => text[i..j]
  }

  lemma {:induction false} CloseIsShortest(text: string, i: nat, pos: nat, count: int)
    requires i < pos <= |text| && count == Depth(text, i, pos) >= 0
    requires forall q :: i < q < pos ==> Depth(text, i, q) > 0
    ensures
      var r := CloseFrom(text, pos, count);
      if r.Some? then r.value <= |text| && ShortestBlock(text, i, r.value)
      else forall j: nat :: i < j <= |text| ==> Depth(text, i, j) > 0
    decreases |text| - pos
  {
    if count > 0 && pos < |text| {
      CloseIsShortest(text, i, pos + 1,
                      count + if text[pos] == '{' then 1 else if text[pos] == '}' then -1 else 0);
    }
  }

  lemma ShortestIsUnique(text: string, i: nat, a: nat, b: nat)
    requires a <= |text| && b <= |text| && ShortestBlock(text, i, a) && ShortestBlock(text, i, b)
    ensures a == b
  { }

  /** From the first opening brace, the block is the shortest balanced one, and empty if there is none. */
  lemma BlockFromBrace(text: string, start: nat, i: nat)
    requires FirstBrace(text, start, i)
    ensures BraceFrom(text, start) == Some(i)
    ensures match CloseFrom(text, i + 1, 1)
            case Some(j) => ShortestBlock(text, i, j) && Block(text, start) == text[i..j]
            case None => Block(text, start) == "" && forall j: nat :: j <= |text| ==> !ShortestBlock(text, i, j)
  {
    OneBrace(text, start, i, BraceFrom(text, start));
    assert Depth(text, i, i) == 0 && Depth(text, i, i + 1) == 1;
    CloseIsShortest(text, i, i + 1, 1);
  }

  lemma OneBrace(text: string, start: nat, i: nat, r: Option<nat>)
    requires FirstBrace(text, start, i) && r.Some? && FirstBrace(text, start, r.value)
    ensures r.value == i
  { }

  /** `text[i..j]` is the shortest balanced block from the first opening brace. */
  predicate IsBlock(text: string, start: nat, i: nat, j: nat) {
    j <= |text| && FirstBrace(text, start, i) && ShortestBlock(text, i, j)
  }

  /** The block is the shortest balanced one from the first opening brace, and empty exactly when there is none. */
  lemma BlockIsShortest(text: string, start: nat)
    ensures forall i: nat, j: nat :: IsBlock(text, start, i, j) ==> Block(text, start) == text[i..j] != ""
    ensures Block(text, start) != "" ==>
              exists i: nat, j: nat :: IsBlock(text, start, i, j) && Block(text, start) == text[i..j]
  {
    forall i: nat, j: nat | IsBlock(text, start, i, j)
      ensures Block(text, start) == text[i..j] != ""
    {
      BlockFromBrace(text, start, i);
      var close := CloseFrom(text, i + 1, 1);
      if close.Some? { ShortestIsUnique(text, i, close.value, j); }
    }
    var brace := BraceFrom(text, start);
    if brace.Some? {
      BlockFromBrace(text, start, brace.value);
      var close := CloseFrom(text, brace.value + 1, 1);
      if close.Some? { assert IsBlock(text, start, brace.value, close.value); }
    }
  }

  method ExtractBlockContent(text: string, start: nat) returns (block: string)
    ensures block == Block(text, start)
  {
    var brace := BraceFrom(text, start);
    if brace.None? { return ""; }
    var i := brace.value;
    var count, pos := 1, i + 1;
    while count > 0 && pos < |text|
      invariant i < pos <= |text| && count >= 0 && CloseFrom(text, pos, count) == CloseFrom(text, i + 1, 1)
      decreases |text| - pos
    {
      if text[pos] == '{' { count := count + 1; } else if text[pos] == '}' { count := count - 1; }
      pos := pos + 1;
    }
    block := if count == 0 then text[i..pos] else "";
  }
}
